/**
 The staged replacement behind COPY and MOVE in webdav.rs: build the result next to the
 destination, swap it in, and put things back when a filesystem call fails on the way.
 */
module Staging {
  import opened ByteStrings
  import opened Disk
  import opened FileTree
  import opened Wrappers
  import Utf8

  // ---------------------------------------------------------------------------
  // Where the staging entry goes
  // ---------------------------------------------------------------------------

  /** The bytes of ".webdav-". */
  const STAGING_PREFIX: Bytes := [0x2E, 0x77, 0x65, 0x62, 0x64, 0x61, 0x76, 0x2D]
  /** The bytes of "entry", used for a name that is not UTF-8. */
  const ENTRY: Bytes := [0x65, 0x6E, 0x74, 0x72, 0x79]
  const DASH: Bytes := [0x2D]

  function StagingName(purpose: Bytes, uuid: Bytes, name: Bytes): Bytes {
    STAGING_PREFIX + purpose + DASH + uuid + DASH + name
  }

  function StagingPath(target: Path, purpose: Bytes, uuid: Bytes): Path
    requires target != []
  {
    var name := target[|target| - 1];
    Parent(target) + [StagingName(purpose, uuid, if Utf8.Valid(name) then name else ENTRY)]
  }

  ghost predicate Incomparable(a: Path, b: Path) {
    !(a <= b) && !(b <= a)
  }

  lemma PrefixesComparable(a: Path, b: Path, p: Path)
    requires a <= p && b <= p
    ensures a <= b || b <= a
  {
    assert a == p[..|a|] && b == p[..|b|];
  }

  /**
   A missing staging path beside the destination lies in the source exactly when the
   destination does. Otherwise it is outside, so that a copy does not walk into its own
   output; and neither of staging and destination ever holds the other.
   */
  lemma StagingIsOutside(tree: Tree, source: Path, destination: Path, staging: Path)
    requires WellFormed(tree) && (source == [] || source in tree) && staging !in tree
    requires destination != [] && staging != [] && staging != destination && Parent(staging) == Parent(destination)
    requires source != destination
    ensures source <= staging <==> source <= destination
    ensures !(staging <= source) && Incomparable(staging, destination)
  {
    assert source != staging && Parent(destination) <= destination;
    assert forall p: Path | p != [] && source <= p && source != p :: source <= Parent(p);
    if staging <= source {
      NothingBelow(tree, staging, source);
    }
    assert staging == Parent(staging) + [staging[|staging| - 1]];
    assert destination == Parent(destination) + [destination[|destination| - 1]];
  }

  // ---------------------------------------------------------------------------
  // Tree algebra
  // ---------------------------------------------------------------------------

  ghost predicate Clear(p: Path, roots: set<Path>) {
    forall r | r in roots :: !(r <= p)
  }

  /** Nothing differs except at or below the given paths. */
  ghost predicate SameOutside(before: Tree, after: Tree, roots: set<Path>) {
    forall p {:trigger p in before} {:trigger p in after} | Clear(p, roots) ::
      (p in before <==> p in after) && (p in before ==> before[p] == after[p])
  }

  lemma SubOfWithout(tree: Tree, gone: Path, at: Path)
    requires Incomparable(gone, at)
    ensures Sub(Without(tree, gone), at) == Sub(tree, at)
  {
    forall q ensures !(gone <= at + q) {
      if gone <= at + q { PrefixesComparable(gone, at, at + q); }
    }
  }

  lemma SubOfPruned(before: Tree, after: Tree, gone: Path, at: Path)
    requires Pruned(before, after, gone) && Incomparable(gone, at)
    ensures Sub(after, at) == Sub(before, at)
  {
    forall q ensures !(gone <= at + q) {
      if gone <= at + q { PrefixesComparable(gone, at, at + q); }
    }
  }

  lemma SubOfGraft(tree: Tree, there: Path, sub: Tree, at: Path)
    requires Incomparable(there, at)
    ensures Sub(Graft(tree, there, sub), at) == Sub(tree, at)
  {
    forall q ensures !(there <= at + q) {
      if there <= at + q { PrefixesComparable(there, at, at + q); }
    }
  }

  lemma SubGone(tree: Tree, at: Path)
    ensures Sub(Without(tree, at), at) == map[]
  {
  }

  lemma MovedOutside(tree: Tree, from: Path, to: Path)
    ensures SameOutside(tree, Moved(tree, from, to), {from, to})
  {
    var after := Moved(tree, from, to);
    forall p | Clear(p, {from, to})
      ensures (p in tree <==> p in after) && (p in tree ==> tree[p] == after[p])
    {
      assert !(from <= p) && !(to <= p);
    }
  }

  /** What `rename` does, read place by place. */
  lemma MovedReads(tree: Tree, from: Path, to: Path)
    requires Incomparable(from, to)
    ensures Sub(Moved(tree, from, to), to) == Sub(tree, from)
    ensures Sub(Moved(tree, from, to), from) == map[]
  {
    GraftReads(Without(tree, from), to, Sub(tree, from));
    SubOfGraft(Without(tree, from), to, Sub(tree, from), from);
    SubGone(tree, from);
  }

  lemma {:induction false} SubOfMoved(tree: Tree, from: Path, to: Path, at: Path)
    requires Incomparable(from, at) && Incomparable(to, at)
    ensures Sub(Moved(tree, from, to), at) == Sub(tree, at)
  {
    SubOfGraft(Without(tree, from), to, Sub(tree, from), at);
    SubOfWithout(tree, from, at);
  }

  lemma SameEntry(a: Tree, b: Tree, at: Path, p: Path)
    requires Sub(a, at) == Sub(b, at) && at <= p
    ensures p in a <==> p in b
    ensures p in a ==> a[p] == b[p]
  {
    var q := p[|at|..];
    assert p == at + q;
    assert q in Sub(a, at) <==> q in Sub(b, at);
    assert q in Sub(a, at) ==> Sub(a, at)[q] == Sub(b, at)[q];
  }

  lemma WithoutTwice(tree: Tree, a: Path, b: Path)
    ensures Without(Without(tree, a), b) == Without(Without(tree, b), a)
  {
  }

  lemma OutsideChain(a: Tree, b: Tree, c: Tree, first: set<Path>, second: set<Path>)
    requires SameOutside(a, b, first) && SameOutside(b, c, second)
    ensures SameOutside(a, c, first + second)
  {
    forall p | Clear(p, first + second)
      ensures (p in a <==> p in c) && (p in a ==> a[p] == c[p])
    {
      assert Clear(p, first) && Clear(p, second);
    }
  }

  lemma OutsideWider(a: Tree, b: Tree, roots: set<Path>, wider: set<Path>)
    requires SameOutside(a, b, roots) && roots <= wider
    ensures SameOutside(a, b, wider)
  {
    forall p | Clear(p, wider) ensures (p in a <==> p in b) && (p in a ==> a[p] == b[p]) {
      assert Clear(p, roots);
    }
  }

  lemma OutsideOne(a: Tree, b: Tree, at: Path)
    requires Without(a, at) == Without(b, at)
    ensures SameOutside(a, b, {at})
  {
    forall p | Clear(p, {at}) ensures (p in a <==> p in b) && (p in a ==> a[p] == b[p]) {
      assert at in {at} && !(at <= p);
      assert p in Without(a, at) <==> p in Without(b, at);
      assert p in a ==> Without(a, at)[p] == Without(b, at)[p];
    }
  }

  lemma PrunedOutside(a: Tree, b: Tree, at: Path)
    requires Pruned(a, b, at)
    ensures Without(a, at) == Without(b, at) && SameOutside(a, b, {at})
    ensures at !in a ==> at !in b
  {
    OutsideOne(a, b, at);
  }

  // ---------------------------------------------------------------------------
  // The guard
  // ---------------------------------------------------------------------------

  /** Why a renamed entry stays where it was staged: the call fails, or there is no way back. */
  ghost predicate NotRestored(disk: Disk, tree: Tree, since: nat, staging: Path, origin: Path)
    requires staging != [] && origin != []
    reads disk
  {
    || disk.FailedLast(since, Renaming(staging, origin))
    || !CanRename(tree, staging, origin)
    || !SameDevice(disk.devices, staging, origin)
  }

  /** A staging entry that cleans itself up unless it is kept. */
  class Staged {
    const path: Path
    var restoreTo: Option<Path>
    var kept: bool

    constructor (path: Path)
      ensures this.path == path && restoreTo == None && !kept
    {
      this.path := path;
      restoreTo := None;
      kept := false;
    }

    method Keep()
      modifies this`kept
      ensures kept
    {
      kept := true;
    }

    /**
     Runs on every way out. An entry that is not kept goes back where it came from, or is
     removed; it stays only if that very call fails, or the `is_dir` in front of it.
     */
    method Drop(disk: Disk)
      requires disk.Valid() && path != [] && (restoreTo.Some? ==> restoreTo.value != [])
      modifies disk
      ensures disk.Valid() && disk.faults >= old(disk.faults)
      ensures kept ==> disk.tree == old(disk.tree) && disk.faults == old(disk.faults)
      ensures !kept && restoreTo.Some? ==>
                if NotRestored(disk, old(disk.tree), old(disk.faults), path, restoreTo.value) then
                  disk.tree == old(disk.tree)
                else disk.tree == Moved(old(disk.tree), path, restoreTo.value)
      ensures !kept && restoreTo.None? ==> Pruned(old(disk.tree), disk.tree, path)
      ensures !kept && restoreTo.None? ==>
                if path in disk.tree then disk.RemovalFailed(old(disk.faults), path)
                else disk.tree == Without(old(disk.tree), path)
      ensures !kept && restoreTo.None? && path in disk.tree && !disk.FailedLast(old(disk.faults), Removal(path)) ==>
                IsDir(old(disk.tree), path)
      ensures Remembers(old(disk.log), disk.log, old(disk.faults))
    {
      hide CanRename, SameDevice, Moved, Pruned, FileTree.WellFormed;
      if kept { return; }
      match restoreTo {
        case Some(origin) =>
          var r := disk.Rename(path, origin);
        case None =>
          var r := disk.RemoveEntry(path);
          PrunedOutside(old(disk.tree), disk.tree, path);
          if path !in disk.tree { FreshIsEmpty(disk.tree, path); }
      }
    }
  }
}
