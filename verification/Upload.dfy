/** The body of PUT in webdav.rs: stream into a staging file, then rename over the target. */
module Upload {
  import opened ByteStrings
  import opened Disk
  import opened FileTree
  import opened Staging
  import opened Wrappers

  datatype PutError = BadBody | TooLarge | Io(error: IoError)

  /** A request body as it arrives; `None` is a broken connection. */
  type Body = seq<Option<Bytes>>

  function Chunk(chunk: Option<Bytes>): Bytes {
    if chunk.Some? then chunk.value else []
  }

  /** The bytes of the chunks, in order. */
  function Received(body: Body): Bytes {
    if body == [] then [] else Received(body[..|body| - 1]) + Chunk(body[|body| - 1])
  }

  lemma NothingReceived(body: Body)
    ensures Received(body[..0]) == []
  {
  }

  lemma ReceivedStep(body: Body, n: nat)
    requires n < |body|
    ensures Received(body[..n + 1]) == Received(body[..n]) + Chunk(body[n])
  {
    assert body[..n + 1][..n] == body[..n];
  }

  lemma {:induction false} ReceivedGrows(body: Body, n: nat)
    requires n <= |body|
    ensures |Received(body[..n])| <= |Received(body)|
    decreases |body|
  {
    if n < |body| {
      ReceivedGrows(body[..|body| - 1], n);
      assert body[..|body| - 1][..n] == body[..n];
    } else {
      assert body[..n] == body;
    }
  }

  lemma ReceivedLast(body: Body, chunk: Option<Bytes>)
    ensures Received(body + [chunk]) == Received(body) + Chunk(chunk)
  {
    assert (body + [chunk])[..|body|] == body;
  }

  lemma {:induction false} ReceivedSum(first: Body, second: Body)
    ensures Received(first + second) == Received(first) + Received(second)
    decreases |second|
  {
    hide Received, Chunk;
    if second == [] {
      NothingReceived([]);
      assert first + second == first && Received(first) + [] == Received(first);
    } else {
      var front, last := second[..|second| - 1], second[|second| - 1];
      ReceivedSum(first, front);
      ReceivedLast(front, last);
      ReceivedLast(first + front, last);
      assert first + second == (first + front) + [last] && second == front + [last];
      AppendAssociates(Received(first), Received(front), Chunk(last));
    }
  }

  /** Chunk by chunk, in order. */
  lemma ReceivedIs(first: Body, second: Body, chunk: Bytes)
    ensures Received([]) == [] && Received([Some(chunk)]) == chunk
    ensures Received(first + second) == Received(first) + Received(second)
  {
    var empty: Body := [];
    NothingReceived(empty);
    ReceivedLast(empty, Some(chunk));
    assert empty + [Some(chunk)] == [Some(chunk)] && [] + chunk == chunk;
    ReceivedSum(first, second);
  }

  ghost predicate Complete(body: Body) {
    forall i | 0 <= i < |body| :: body[i].Some?
  }

  /** The k-th chunk does not arrive, and what came before is not too large. */
  ghost predicate BreaksOff(body: Body, limit: nat, k: nat) {
    && k < |body| && body[k].None? && Complete(body[..k])
    && (limit < U64_MAX ==> |Received(body[..k])| <= limit)
  }

  /** The first k chunks have arrived and are too large. */
  ghost predicate GrowsTooLarge(body: Body, limit: nat, k: nat) {
    k <= |body| && Complete(body[..k]) && limit < U64_MAX && |Received(body[..k])| > limit
  }

  /** A body is refused for one reason only, and never one that is whole and within the limit. */
  lemma OneReason(body: Body, limit: nat, k: nat, j: nat)
    requires BreaksOff(body, limit, k)
    ensures !GrowsTooLarge(body, limit, j) && !Complete(body)
  {
    hide Received;
    if j <= k {
      ReceivedGrows(body[..k], j);
      assert body[..k][..j] == body[..j];
    } else if j <= |body| {
      assert body[..j][k] == body[k];
    }
  }

  function SaturatingAdd(a: nat, b: nat): nat {
    if a + b > U64_MAX then U64_MAX else a + b
  }

  lemma LoneUpload(before: Tree, staging: Path, content: Bytes)
    requires WellFormed(before) && staging != [] && staging !in before
    ensures Sub(before[staging := File(content)], staging) == map[[] := File(content)]
  {
    assert staging + [] == staging;
    forall q ensures staging + q in before[staging := File(content)] <==> q == [] {
      if q != [] { NothingBelow(before, staging, staging + q); }
    }
  }

  lemma MovedOnto(tree: Tree, from: Path, to: Path, p: Path)
    requires to <= p && Sub(tree, from).Keys == {[]}
    ensures p in Moved(tree, from, to) <==> p == to
    ensures p in Moved(tree, from, to) ==> Moved(tree, from, to)[p] == Sub(tree, from)[[]]
  {
    assert p == to + p[|to|..];
  }

  lemma {:induction false} LeafHasNothingBelow(tree: Tree, leaf: Path, p: Path)
    requires WellFormed(tree) && leaf != [] && leaf <= p && (leaf in tree ==> !tree[leaf].Directory?)
    ensures p == leaf || p !in tree
    decreases |p|
  {
    if p != leaf && p in tree {
      assert leaf <= Parent(p);
      LeafHasNothingBelow(tree, leaf, Parent(p));
    }
  }

  lemma MovedElsewhereOrFrom(tree: Tree, from: Path, to: Path, p: Path)
    requires !(to <= p)
    ensures p in Moved(tree, from, to) <==> p in tree && !(from <= p)
    ensures p in Moved(tree, from, to) ==> Moved(tree, from, to)[p] == tree[p]
  {
  }

  /** Renaming the staging file over a missing or non-directory target just sets the target. */
  lemma {:induction false} RenamedOver(before: Tree, staging: Path, target: Path, content: Bytes)
    requires WellFormed(before) && staging != [] && staging !in before && target != [] && Incomparable(staging, target)
    ensures !IsDir(before, target) ==>
              Moved(before[staging := File(content)], staging, target) == before[target := File(content)]
  {
    hide Moved, Sub;
    if IsDir(before, target) { return; }
    var uploaded := before[staging := File(content)];
    LoneUpload(before, staging, content);
    var after := Moved(uploaded, staging, target);
    forall p ensures (p in after <==> p in before[target := File(content)])
                  && (p in after ==> after[p] == before[target := File(content)][p]) {
      if target <= p {
        MovedOnto(uploaded, staging, target, p);
        LeafHasNothingBelow(before, target, p);
      } else {
        MovedElsewhereOrFrom(uploaded, staging, target, p);
        if staging <= p { NothingBelow(before, staging, p); }
      }
    }
  }

  /** Nothing but a file at the staging path, with whatever has got there. */
  ghost predicate OnlyStaged(before: Tree, after: Tree, staging: Path) {
    exists content :: after == before[staging := File(content)]
  }

  /** Dropping the guard takes the staging file away, or leaves it as it is. */
  lemma DroppedOrLeft(before: Tree, left: Tree, after: Tree, staging: Path)
    requires WellFormed(before) && WellFormed(left) && staging != [] && staging !in before
    requires OnlyStaged(before, left, staging) && Pruned(left, after, staging)
    ensures after == if staging in after then left else before
  {
    forall p | p in left ensures p in after || p == staging {
      if staging <= p { LeafHasNothingBelow(left, staging, p); }
    }
  }

  /** The chunk loop, with the size counted the way a saturating u64 counts. */
  method Stream(disk: Disk, ghost before: Tree, staging: Path, body: Body,
                limit: nat) returns (failure: Option<PutError>)
    requires disk.Valid() && disk.tree == before[staging := File([])]
    modifies disk
    ensures disk.Valid() && disk.faults >= old(disk.faults)
    ensures failure.Some? && failure.value.Io? ==> disk.faults > old(disk.faults)
    ensures OnlyStaged(before, disk.tree, staging)
    ensures failure.None? ==> disk.tree == before[staging := File(Received(body))] && Complete(body)
    ensures failure.None? && limit < U64_MAX ==> |Received(body)| <= limit
    ensures failure == Some(BadBody) ==> !Complete(body) && exists k :: BreaksOff(body, limit, k)
    ensures failure == Some(TooLarge) ==> |Received(body)| > limit && exists k :: GrowsTooLarge(body, limit, k)
  {
    hide Received;
    var written: nat := 0;
    NothingReceived(body);
    for i := 0 to |body|
      invariant disk.Valid() && disk.faults >= old(disk.faults)
      invariant disk.tree == before[staging := File(Received(body[..i]))]
      invariant forall j | 0 <= j < i :: body[j].Some?
      invariant written == SaturatingAdd(|Received(body[..i])|, 0)
      invariant i > 0 ==> written <= limit
    {
      if body[i].None? {
        assert BreaksOff(body, limit, i);
        return Some(BadBody);
      }
      var chunk := body[i].value;
      ReceivedStep(body, i);
      written := SaturatingAdd(written, |chunk|);
      ReceivedGrows(body, i + 1);
      if written > limit {
        assert GrowsTooLarge(body, limit, i + 1);
        return Some(TooLarge);
      }
      var appended := disk.Append(staging, chunk);
      if appended.IoErr? { return Some(Io(appended.error)); }
    }
    assert body[..|body|] == body;
    var flushed := disk.Flush(staging);
    if flushed.IoErr? { return Some(Io(flushed.error)); }
    failure := None;
  }

  /**
   All or nothing: success means the target holds exactly the bytes received, from a body
   that arrived whole and within the limit; an error leaves everything but the staging file
   as it was, and the staging file too unless removing it is the call that failed. Unless a
   call fails, a whole body within the limit is stored. A directory is never replaced.
   */
  method StoreBody(disk: Disk, target: Path, staging: Path, body: Body, limit: nat)
    returns (r: Result<(), PutError>)
    requires disk.Valid() && target != [] && staging != [] && Incomparable(staging, target)
    requires staging !in disk.tree && Parent(staging) == Parent(target)
    modifies disk
    ensures disk.Valid() && disk.faults >= old(disk.faults)
    ensures r.Failure? && disk.faults == old(disk.faults) ==>
              || IsDir(old(disk.tree), target) || !IsDir(old(disk.tree), Parent(target))
              || !Complete(body) || |Received(body)| > limit
    ensures (&& r.Failure? && disk.faults == old(disk.faults)
             && !IsDir(old(disk.tree), target) && IsDir(old(disk.tree), Parent(target))) ==> !r.error.Io?
    ensures r.Success? ==> disk.tree == old(disk.tree)[target := File(Received(body))]
    ensures r.Success? ==> !IsDir(old(disk.tree), target) && IsDir(old(disk.tree), Parent(target))
    ensures r.Success? ==> Complete(body) && (limit < U64_MAX ==> |Received(body)| <= limit)
    ensures r.Failure? && disk.tree != old(disk.tree) ==>
              OnlyStaged(old(disk.tree), disk.tree, staging) && disk.FailedLast(old(disk.faults), Removal(staging))
    ensures r == Failure(BadBody) ==> !Complete(body) && exists k :: BreaksOff(body, limit, k)
    ensures r == Failure(TooLarge) ==> |Received(body)| > limit && exists k :: GrowsTooLarge(body, limit, k)
  {
    hide Received, Without, Moved, Sub, Pruned, Followed;
    ghost var before := disk.tree;
    var created;
    ghost var end;
    created, end := disk.CreateFile(staging);
    if created.IoErr? { return Failure(Io(created.error)); }
    OpensThere(before, staging, end);
    var guard := new Staged(staging);
    var failure: Option<PutError>;
    failure := Stream(disk, before, staging, body, limit);
    if failure.None? {
      RenamedOver(before, staging, target, Received(body));
      var renamed := disk.Rename(staging, target);
      if renamed.IoOk? {
        guard.Keep();
        return Success(());
      }
      failure := Some(Io(renamed.error));
    }
    ghost var left := disk.tree;
    guard.Drop(disk);
    DroppedOrLeft(before, left, disk.tree, staging);
    r := Failure(failure.value);
  }
}
