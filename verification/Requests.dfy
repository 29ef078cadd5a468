/**
 Requests as a client sends them: names in a URL, places in a tree, locks on names. What every
 method answers, and what becomes of the tree, when no call fails and no symbolic link is in
 the way.
 */
module Requests {
  import opened ByteStrings
  import opened CopyEntry
  import opened DavPath
  import opened Disk
  import opened FileTree
  import opened HandlerProofs
  import opened Locks
  import opened Outcomes
  import opened PercentCoding
  import opened SafePath
  import opened Serving
  import opened Staging
  import opened Timeouts
  import opened Transfer
  import opened Upload
  import opened WriteGuard
  import opened Wrappers
  import Utf8

  // ---------------------------------------------------------------------------
  // Names
  // ---------------------------------------------------------------------------

  /** Names on the disk are texts in UTF-8. */
  function Names(texts: seq<string>): (names: seq<Bytes>)
    ensures |names| == |texts|
  {
    seq(|texts|, i requires 0 <= i < |texts| => Utf8.Encoded(texts[i]))
  }

  /** The path of a URL with these names, their bytes spelled in whatever way, perhaps with a slash at its end. */
  ghost predicate Reads(path: Bytes, texts: seq<string>) {
    && texts != [] && (forall i | 0 <= i < |texts| :: GoodText(texts[i]))
    && exists spellings: seq<seq<Bytes>> ::
         && |spellings| == |texts|
         && (forall i | 0 <= i < |texts| :: AllSpell(spellings[i], Utf8.Encoded(texts[i])))
         && var pieces := seq(|texts|, i requires 0 <= i < |texts| => Concat(spellings[i]));
            path == Url(pieces) || path == Url(pieces + [[]])
  }

  lemma RelativeOf(names: seq<Bytes>)
    requires AllOrdinary(names) && names != []
    ensures Join(names[1..], SLASH) == [] <==> |names| == 1
  {
    if |names| > 1 { JoinNonEmpty(names[1..], SLASH); }
  }

  lemma TargetOf(path: Bytes, texts: seq<string>)
    requires Reads(path, texts)
    ensures FromPath(path) == Success(FromSegments(Names(texts))) && AllOrdinary(Names(texts)) && Names(texts) != []
    ensures FromPath(path).value == DavTarget(Some(Names(texts)[0]), Join(Names(texts)[1..], SLASH))
    ensures LockKey(FromPath(path).value) == Join(Names(texts), SLASH)
    ensures FromPath(path).value.relative == [] <==> |texts| == 1
  {
    hide Utf8.Encoded, AllSpell, GoodText, Ordinary;
    var spellings: seq<seq<Bytes>> :|
      && |spellings| == |texts|
      && (forall i | 0 <= i < |texts| :: AllSpell(spellings[i], Utf8.Encoded(texts[i])))
      && var pieces := seq(|texts|, i requires 0 <= i < |texts| => Concat(spellings[i]));
         path == Url(pieces) || path == Url(pieces + [[]]);
    UrlReads(texts, spellings);
    LockKeyIsJoin(Names(texts));
    RelativeOf(Names(texts));
  }

  /** A name like a drive letter with its colon, which the resolvers take for an absolute path. */
  ghost predicate DriveLike(name: Bytes) {
    |name| > 1 && name[1] == ':' as int
  }

  /** A control character: U+0000-001F, U+007F or U+0080-009F. */
  ghost predicate ControlIn(text: string) {
    exists i :: 0 <= i < |text| && ((text[i] as int) < 0x20 || 0x7F <= text[i] as int <= 0x9F)
  }

  lemma OrdinaryIsPlain(names: seq<Bytes>)
    requires AllOrdinary(names)
    ensures AllPlain(names) && AllFileNames(names)
    ensures forall i | 0 <= i < |names| :: 0 !in names[i] && BACKSLASH !in names[i]
  {
  }

  // ---------------------------------------------------------------------------
  // Places
  // ---------------------------------------------------------------------------

  /** The folder of the first name is a plain path, and no symbolic link is on the way to the place. */
  ghost predicate Clean(tree: Tree, roots: Roots, names: seq<Bytes>) {
    && names != [] && names[0] in roots && AllPlain(roots[names[0]]) && LinkFree(tree, Place(roots, names))
  }

  lemma FirstByte(name: Bytes)
    requires Ordinary(name)
    ensures name != [] && name[0] != '\\' as int
  {
  }

  lemma NoControlIff(name: Bytes, text: string)
    requires Ordinary(name) && name == Utf8.Encoded(text)
    ensures !ControlIn(text) <==>
              forall k | 0 <= k < |name| ::
                && name[k] >= 0x20 && name[k] != 0x7F && name[k] != '\\' as int
                && !(name[k] == 0xC2 && k + 1 < |name| && 0x80 <= name[k + 1] <= 0x9F)
  {
    ControlCharacters(text);
  }

  lemma ParentAccepts(tree: Tree, folder: Path, below: seq<Bytes>, text: string)
    requires WellFormed(tree) && below != [] && AllOrdinary(below) && below[|below| - 1] == Utf8.Encoded(text)
    requires AllPlain(folder) && LinkFree(tree, folder + below)
    ensures var r := ResolveParent(tree, folder, Join(below, SLASH));
            && (r.Success? <==>
                  && (Parent(folder + below) == [] || Parent(folder + below) in tree)
                  && !DriveLike(below[0]) && !ControlIn(text))
            && (r.Success? ==> r.value == folder + below)
  {
    hide ResolveParent, Utf8.Encoded, LinkFree, WellFormed, Ordinary, Plain, ControlIn;
    OrdinaryIsPlain(below);
    ResolveParentExactly(tree, folder, below);
    NoControlIff(below[|below| - 1], text);
    FirstByte(below[0]);
  }

  /** Where a write goes: to the place of the names, if the folder it is in is there. */
  lemma WritesTo(tree: Tree, view: View, texts: seq<string>)
    requires WellFormed(tree) && |texts| > 1 && AllOrdinary(Names(texts)) && Clean(tree, view.writable, Names(texts))
    ensures var names := Names(texts);
            var place := Place(view.writable, names);
            && place != []
            && WritePath(tree, view, FromSegments(names)) ==
                 if && (Parent(place) == [] || Parent(place) in tree)
                    && !DriveLike(names[1]) && !ControlIn(texts[|texts| - 1])
                 then Some(place) else None
  {
    hide ResolveParent, Utf8.Encoded, LinkFree, WellFormed, Ordinary, Plain, ControlIn, DriveLike;
    var names := Names(texts);
    RelativeOf(names);
    assert names[1..][|names| - 2] == Utf8.Encoded(texts[|texts| - 1]);
    ParentAccepts(tree, view.writable[names[0]], names[1..], texts[|texts| - 1]);
  }

  /** Where a read goes: to what is there, whether or not the folder may be written. */
  lemma ReadsFrom(tree: Tree, view: View, texts: seq<string>)
    requires WellFormed(tree) && |texts| > 0 && AllOrdinary(Names(texts)) && Clean(tree, view.readable, Names(texts))
    ensures var names := Names(texts);
            var place := Place(view.readable, names);
            ReadPath(tree, view, FromSegments(names)) ==
              if (place == [] || place in tree) && !(|names| > 1 && DriveLike(names[1])) then Some(place) else None
  {
    hide Resolve, Utf8.Encoded, LinkFree, WellFormed, Ordinary, Plain;
    var names := Names(texts);
    var folder, below := view.readable[names[0]], names[1..];
    OrdinaryIsPlain(names);
    ResolveExactly(tree, folder, below);
    if |names| > 1 {
      assert below[0] == names[1];
      FirstByte(names[1]);
    }
  }

  // ---------------------------------------------------------------------------
  // Locks
  // ---------------------------------------------------------------------------

  /** Every lock is filed under its token, and was taken on names. */
  ghost predicate AllTaken(locks: Table) {
    forall token | token in locks :: exists locked :: TakenOn(locks[token], locked)
  }

  /**
   A live lock whose token is not presented, on the names, on names that extend them, or, with
   depth infinity, on names that they extend.
   */
  ghost predicate Stopped(locks: Table, now: nat, names: seq<Bytes>, tokens: seq<Bytes>) {
    exists token, locked ::
      && token in locks && TakenOn(locks[token], locked)
      && now < locks[token].expiresAt && locks[token].token !in tokens
      && (names <= locked || (locks[token].depthInfinity && locked <= names))
  }

  lemma StoppedIff(locks: Table, now: nat, names: seq<Bytes>, tokens: seq<Bytes>)
    requires AllTaken(locks) && names != [] && AllFileNames(names)
    ensures Blocking(Live(locks, now), Join(names, SLASH), tokens) != {} <==> Stopped(locks, now, names, tokens)
  {
    hide AllFileNames, TakenOn;
    var key := Join(names, SLASH);
    var blocking := Blocking(Live(locks, now), key, tokens);
    assert Step(locks, Timed(Call.Conflict(key, tokens), now)).answer.locks == blocking;
    if blocking != {} {
      var token :| token in Live(locks, now) && Live(locks, now)[token] in blocking;
      var locked :| TakenOn(locks[token], locked);
      ConflictNames(locks, token, locked, names, tokens, now);
    }
    if Stopped(locks, now, names, tokens) {
      var token, locked :|
        && token in locks && TakenOn(locks[token], locked)
        && now < locks[token].expiresAt && locks[token].token !in tokens
        && (names <= locked || (locks[token].depthInfinity && locked <= names));
      ConflictNames(locks, token, locked, names, tokens, now);
    }
  }

  /** The lock check of a request for these names. */
  lemma FreeIff(record: Record, texts: seq<string>, tokens: seq<Bytes>)
    requires Reads(record.request.path, texts) && AllTaken(record.before.locks)
    ensures FromPath(record.request.path).Success?
    ensures Unhindered(record.before, LockKey(FromPath(record.request.path).value), tokens, record.checkedAt) <==>
              !Stopped(record.before.locks, record.checkedAt, Names(texts), tokens)
  {
    TargetOf(record.request.path, texts);
    OrdinaryIsPlain(Names(texts));
    StoppedIff(record.before.locks, record.checkedAt, Names(texts), tokens);
  }

  // ---------------------------------------------------------------------------
  // PUT and MKCOL
  // ---------------------------------------------------------------------------

  /** The folder a place is in is not there, or the names will not do. */
  ghost predicate Unreachable(tree: Tree, place: Path, texts: seq<string>)
    requires place != [] && |texts| > 1
  {
    || (Parent(place) != [] && Parent(place) !in tree)
    || DriveLike(Names(texts)[1]) || ControlIn(texts[|texts| - 1])
  }

  /** What PUT answers to the names of a place, and what becomes of the tree. */
  lemma PutAnswers(devices: Devices, limit: nat, record: Record, texts: seq<string>)
    requires Happened(devices, limit, record) && Calm(record.before, record.after) && AllTaken(record.before.locks)
    requires record.request.PutRequest? && Reads(record.request.path, texts)
    ensures |texts| == 1 || Names(texts)[0] !in record.request.view.writable ==>
              record.status == Forbidden && record.after.tree == record.before.tree
    ensures |texts| > 1 && Clean(record.before.tree, record.request.view.writable, Names(texts)) ==>
              var place, tree := Place(record.request.view.writable, Names(texts)), record.before.tree;
              var declared, body := record.request.declared, record.request.body;
              && place != []
              && if Unreachable(tree, place, texts) then record.status == Conflicting && record.after.tree == tree
                 else if IsDir(tree, place) then record.status == MethodNotAllowed && record.after.tree == tree
                 else if !IsDir(tree, Parent(place)) then record.status == Conflicting && record.after.tree == tree
                 else if Stopped(record.before.locks, record.checkedAt, Names(texts), record.request.tokens) then
                   record.status == Locked && record.after.tree == tree
                 else if declared.Some? && declared.value > limit then
                   record.status == PayloadTooLarge && record.after.tree == tree
                 else if Complete(body) && |Received(body)| <= limit then
                   && record.status == (if place in tree then NoContent else Created)
                   && record.after.tree == tree[place := File(Received(body))]
                 else
                   && BodyAnswered(body, limit, record.status)
                   && (Succeeds(record.status) ==> limit >= U64_MAX)
                   && (!Succeeds(record.status) ==> record.after.tree == tree)
  {
    hide Unhindered, Stopped, AllTaken, GuardedStep, OnlyGone, Unused, Sound, AimedPath, WritePath, BodyAnswered,
      LockKey, Reads, FromPath, FromSegments, Received, Complete, StagingPath, ControlIn, DriveLike,
      LinkFree, AllPlain, AllOrdinary, Names, Place, Utf8.Encoded,
      MkcolOutcome, DeleteOutcome, TransferOutcome, LockOutcome, UnlockOutcome, FileTree.WellFormed;
    var names, view := Names(texts), record.request.view;
    TargetOf(record.request.path, texts);
    FreeIff(record, texts, record.request.tokens);
    AimedOrWritten(record.before.tree, view, FromSegments(names));
    if |texts| > 1 && Clean(record.before.tree, view.writable, names) {
      WritesTo(record.before.tree, view, texts);
    }
  }

  /** What the outcome of MKCOL says if no call fails, over the resolved path. */
  lemma MkcolSays(devices: Devices, limit: nat, record: Record, texts: seq<string>)
    requires Happened(devices, limit, record) && Calm(record.before, record.after) && AllTaken(record.before.locks)
    requires record.request.MkcolRequest? && Reads(record.request.path, texts)
    ensures var (tree, view, target) := (record.before.tree, record.request.view, FromSegments(Names(texts)));
            && WellFormed(tree) && AllOrdinary(Names(texts)) && (target.relative == [] <==> |texts| == 1)
            && target.root == Some(Names(texts)[0])
            && record.status == MkcolAnswer(tree, view, target, !Stopped(record.before.locks, record.checkedAt,
                                                                        Names(texts), record.request.tokens))
            && if record.status == Created then
                 WritePath(tree, view, target).Some?
                 && record.after.tree == tree[WritePath(tree, view, target).value := Directory]
               else record.after.tree == tree
  {
    hide Unhindered, Stopped, AllTaken, GuardedStep, OnlyGone, Unused, Sound, WritePath, LockKey, Reads, FromPath,
      PlaceRefusal, PutOutcome, DeleteOutcome, TransferOutcome, LockOutcome, UnlockOutcome,
      FileTree.WellFormed, Names;
    TargetOf(record.request.path, texts);
    FreeIff(record, texts, record.request.tokens);
  }

  /** The same for MKCOL. */
  lemma MkcolAnswers(devices: Devices, limit: nat, record: Record, texts: seq<string>)
    requires Happened(devices, limit, record) && Calm(record.before, record.after) && AllTaken(record.before.locks)
    requires record.request.MkcolRequest? && Reads(record.request.path, texts)
    ensures |texts| == 1 || Names(texts)[0] !in record.request.view.writable ==>
              record.status == Forbidden && record.after.tree == record.before.tree
    ensures |texts| > 1 && Clean(record.before.tree, record.request.view.writable, Names(texts)) ==>
              var place, tree := Place(record.request.view.writable, Names(texts)), record.before.tree;
              && place != []
              && if Unreachable(tree, place, texts) then record.status == Conflicting && record.after.tree == tree
                 else if place in tree then record.status == MethodNotAllowed && record.after.tree == tree
                 else if !IsDir(tree, Parent(place)) then record.status == Conflicting && record.after.tree == tree
                 else if Stopped(record.before.locks, record.checkedAt, Names(texts), record.request.tokens) then
                   record.status == Locked && record.after.tree == tree
                 else record.status == Created && record.after.tree == tree[place := Directory]
  {
    hide Happened, Stopped, AllTaken, WritePath, Reads, FromSegments, ControlIn, DriveLike, FileTree.WellFormed,
      LinkFree, AllPlain, AllOrdinary, Names, Place, Utf8.Encoded;
    var names, view := Names(texts), record.request.view;
    MkcolSays(devices, limit, record, texts);
    if |texts| > 1 && Clean(record.before.tree, view.writable, names) {
      WritesTo(record.before.tree, view, texts);
    }
  }

  // ---------------------------------------------------------------------------
  // DELETE
  // ---------------------------------------------------------------------------

  lemma WithoutIs(tree: Tree, at: Path)
    ensures forall p :: p in Without(tree, at) <==> p in tree && !(at <= p)
    ensures forall p | p in Without(tree, at) :: Without(tree, at)[p] == tree[p]
  {
  }

  /** What the outcome of DELETE says if no call fails, over the resolved path. */
  lemma DeleteSays(devices: Devices, limit: nat, record: Record, texts: seq<string>)
    requires Happened(devices, limit, record) && Calm(record.before, record.after) && AllTaken(record.before.locks)
    requires record.request.DeleteRequest? && Reads(record.request.path, texts)
    ensures var (tree, view, target) := (record.before.tree, record.request.view, FromSegments(Names(texts)));
            && WellFormed(tree) && AllOrdinary(Names(texts)) && (target.relative == [] <==> |texts| == 1)
            && target.root == Some(Names(texts)[0])
            && record.status == DeleteAnswer(tree, view, target, !Stopped(record.before.locks, record.checkedAt,
                                                                         Names(texts), record.request.tokens))
            && if record.status == NoContent then
                 WritePath(tree, view, target).Some?
                 && record.after.tree == Without(tree, WritePath(tree, view, target).value)
               else record.after.tree == tree
  {
    hide Unhindered, Stopped, AllTaken, GuardedStep, OnlyGone, Unused, Sound, WritePath, LockKey, Reads, FromPath,
      EntryRefusal, Without, PutOutcome, MkcolOutcome, TransferOutcome, LockOutcome, UnlockOutcome,
      FileTree.WellFormed, Names;
    TargetOf(record.request.path, texts);
    FreeIff(record, texts, record.request.tokens);
  }

  /** The same for DELETE. */
  lemma DeleteAnswers(devices: Devices, limit: nat, record: Record, texts: seq<string>)
    requires Happened(devices, limit, record) && Calm(record.before, record.after) && AllTaken(record.before.locks)
    requires record.request.DeleteRequest? && Reads(record.request.path, texts)
    ensures |texts| == 1 || Names(texts)[0] !in record.request.view.writable ==>
              record.status == Forbidden && record.after.tree == record.before.tree
    ensures |texts| > 1 && Clean(record.before.tree, record.request.view.writable, Names(texts)) ==>
              var place, tree := Place(record.request.view.writable, Names(texts)), record.before.tree;
              && place != []
              && if place !in tree || Unreachable(tree, place, texts) then
                   record.status == Absent && record.after.tree == tree
                 else if Stopped(record.before.locks, record.checkedAt, Names(texts), record.request.tokens) then
                   record.status == Locked && record.after.tree == tree
                 else
                   && record.status == NoContent
                   && (forall p :: p in record.after.tree <==> p in tree && !(place <= p))
                   && (forall p | p in record.after.tree :: record.after.tree[p] == tree[p])
  {
    hide Happened, Stopped, AllTaken, WritePath, Reads, FromSegments, ControlIn, DriveLike, FileTree.WellFormed,
      LinkFree, AllPlain, AllOrdinary, Names, Place, Utf8.Encoded, Without;
    var names, view := Names(texts), record.request.view;
    DeleteSays(devices, limit, record, texts);
    if |texts| > 1 && Clean(record.before.tree, view.writable, names) {
      WritesTo(record.before.tree, view, texts);
      WithoutIs(record.before.tree, Place(view.writable, names));
    }
  }

  // ---------------------------------------------------------------------------
  // COPY and MOVE
  // ---------------------------------------------------------------------------

  /** Where a COPY or MOVE finds its source. */
  function SourceRoots(view: View, move: bool): Roots {
    if move then view.writable else view.readable
  }

  lemma SubAt(tree: Tree, at: Path, p: Path)
    requires at <= p
    ensures p in tree <==> p[|at|..] in Sub(tree, at)
    ensures p in tree ==> tree[p] == Sub(tree, at)[p[|at|..]]
  {
    assert p == at + p[|at|..];
  }

  lemma NothingInFile(tree: Tree, file: Path, p: Path)
    requires WellFormed(tree) && file in tree && tree[file].File? && file <= p && p != file
    ensures p !in tree
  {
    if p in tree { AncestorIsDir(tree, file, Parent(p)); }
  }

  /** A file, or a directory with no symbolic link below it. */
  ghost predicate CanBeCopied(tree: Tree, from: Path)
    requires from in tree
  {
    tree[from].File? || (tree[from].Directory? && forall p | p in tree && from <= p :: !tree[p].Symlink?)
  }

  lemma CopyableIs(tree: Tree, from: Path)
    requires WellFormed(tree) && from != [] && from in tree
    ensures Copyable(tree, from) <==> CanBeCopied(tree, from)
  {
    hide FileTree.WellFormed, Sub;
    var sub := Sub(tree, from);
    forall p | from <= p ensures p in tree <==> p[|from|..] in sub {
      SubAt(tree, from, p);
    }
    forall q ensures from <= from + q && (from + q)[|from|..] == q {}
    if tree[from].File? {
      forall q | q in sub ensures !sub[q].Symlink? {
        SubAt(tree, from, from + q);
        assert q == [] ==> from + q == from;
        if q != [] { NothingInFile(tree, from, from + q); }
      }
    } else {
      forall q | q in sub ensures from + q in tree && tree[from + q] == sub[q] {
        SubAt(tree, from, from + q);
      }
      forall p | p in tree && from <= p ensures p[|from|..] in sub && sub[p[|from|..]] == tree[p] {
        SubAt(tree, from, p);
      }
    }
  }

  /**
   What a COPY or MOVE makes of a path. At the destination is what was at the source, for a
   COPY and a MOVE across devices its files and directories only; what was at the destination
   is gone, and after a MOVE the source is. Nothing else has changed.
   */
  ghost predicate TransferredAt(before: Tree, after: Tree, from: Path, to: Path, move: bool, all: bool, p: Path) {
    if to <= p then
      var q := from + p[|to|..];
      && (p in after <==> q in before && (all || before[q].File? || before[q].Directory?))
      && (p in after ==> after[p] == before[q])
    else if move && from <= p then p !in after
    else (p in after <==> p in before) && (p in after ==> after[p] == before[p])
  }

  ghost predicate Transferred(before: Tree, after: Tree, from: Path, to: Path, move: bool, all: bool) {
    forall p :: TransferredAt(before, after, from, to, move, all, p)
  }

  lemma CarriedAt(tree: Tree, from: Path, all: bool, q: Path)
    ensures q in Carried(tree, from, all) <==>
              from + q in tree && (all || tree[from + q].File? || tree[from + q].Directory?)
    ensures q in Carried(tree, from, all) ==> Carried(tree, from, all)[q] == tree[from + q]
  {
  }

  lemma OnePath(before: Tree, after: Tree, from: Path, to: Path, staging: Path, move: bool, all: bool, p: Path)
    requires WellFormed(before) && staging != [] && staging !in before
    requires SameOutside(before, after, if move then {from, staging, to} else {staging, to})
    requires Sub(after, to) == Carried(before, from, all) && Sub(after, staging) == map[]
    requires move && !(to <= from) ==> Sub(after, from) == map[]
    ensures TransferredAt(before, after, from, to, move, all, p)
  {
    hide Sub, FileTree.WellFormed;
    if to <= p {
      SubAt(after, to, p);
      CarriedAt(before, from, all, p[|to|..]);
    } else if move && from <= p {
      SubAt(after, from, p);
    } else if staging <= p {
      SubAt(after, staging, p);
      NothingBelow(before, staging, p);
    } else {
      assert Clear(p, if move then {from, staging, to} else {staging, to});
    }
  }

  lemma SuccessFits(devices: Devices, before: Moment, after: Moment, from: Path, to: Path, staging: Path,
                    move: bool, swapped: bool, status: Status, seen: Seen)
    requires CarriedOut(devices, before, after, from, to, staging, move, swapped, status, seen) && Succeeds(status)
    requires to != [] && (move ==> from != [])
    requires !(from <= to) && !(move && !Renames(devices, from, to, move) && to <= from)
    ensures SameOutside(before.tree, after.tree, if move then {from, staging, to} else {staging, to})
    ensures Sub(after.tree, to) == Carried(before.tree, from, Renames(devices, from, to, move))
    ensures Sub(after.tree, staging) == map[]
    ensures move && !(to <= from) ==> Sub(after.tree, from) == map[]
    ensures status == if seen.there then NoContent else Created
  {
    hide Carried, SameOutside, Sub, Conserved, Leftover, Tidy, Pruned, KeptUntilSwap, Copyable, EndsFit, StagingCleared;
  }

  /** The tree after a COPY or MOVE that has succeeded. */
  lemma TreeAfterTransfer(devices: Devices, before: Moment, after: Moment, from: Path, to: Path, staging: Path,
                          move: bool, swapped: bool, status: Status, seen: Seen)
    requires WellFormed(before.tree) && to != [] && staging != [] && staging !in before.tree
    requires CarriedOut(devices, before, after, from, to, staging, move, swapped, status, seen) && Succeeds(status)
    requires move ==> from != []
    requires !(from <= to) && !(move && !Renames(devices, from, to, move) && to <= from)
    ensures Transferred(before.tree, after.tree, from, to, move, Renames(devices, from, to, move))
  {
    hide CarriedOut, Carried, SameOutside, Sub, FileTree.WellFormed, TransferredAt;
    SuccessFits(devices, before, after, from, to, staging, move, swapped, status, seen);
    forall p {
      OnePath(before.tree, after.tree, from, to, staging, move, Renames(devices, from, to, move), p);
    }
  }

  /** A lock stops a COPY at its destination, and a MOVE at its source as well. */
  ghost predicate EndsStopped(record: Record, texts: seq<string>, others: seq<string>)
    requires record.request.TransferRequest?
  {
    || Stopped(record.before.locks, record.checkedAt, Names(others), record.request.tokens)
    || (record.request.move && Stopped(record.before.locks, record.checkedAt, Names(texts), record.request.tokens))
  }

  /** What the outcome of a COPY or MOVE says if no call fails, over the resolved paths. */
  lemma TransferSays(devices: Devices, limit: nat, record: Record, texts: seq<string>, others: seq<string>)
    requires Happened(devices, limit, record) && Calm(record.before, record.after) && AllTaken(record.before.locks)
    requires record.request.TransferRequest? && Reads(record.request.path, texts)
    requires record.request.destination.Some? && Reads(record.request.destination.value, others)
    ensures var source, destination := FromSegments(Names(texts)), FromSegments(Names(others));
            var (tree, view, move) := (record.before.tree, record.request.view, record.request.move);
            && WellFormed(tree) && AllOrdinary(Names(texts)) && AllOrdinary(Names(others))
            && texts != [] && others != []
            && (source.relative == [] <==> |texts| == 1) && source.root == Some(Names(texts)[0])
            && (destination.relative == [] <==> |others| == 1) && destination.root == Some(Names(others)[0])
            && TransferAnswered(tree, view, source, destination, EndsStopped(record, texts, others),
                                record.request.overwrite, move, record.status)
            && (!EndsStopped(record, texts, others)
                && !DevoursItself(devices, tree, view, source, destination, move) ==>
                  (Possible(devices, tree, view, source, destination, record.request.overwrite, move)
                   <==> Succeeds(record.status)))
            && (match record.report
                case Refused =>
                  && record.after.tree == tree && !Succeeds(record.status)
                  && TurnedAway(tree, view, source, destination, EndsStopped(record, texts, others),
                                record.request.overwrite, move)
                case Attempted(from, to, staging, swapped) =>
                  && Parted(tree, view, source, destination, move, from, to)
                  && LetThrough(record.before, record.after, from, to, record.request.overwrite, record.seen)
                  && !EndsStopped(record, texts, others) && staging != [] && staging !in tree
                  && CarriedOut(devices, record.before, record.after, from, to, staging, move, swapped, record.status,
                                record.seen))
  {
    hide Unhindered, Stopped, AllTaken, GuardedStep, OnlyGone, Unused, Sound, AimedPath, WritePath, LockKey, Reads,
      FromPath, TransferAnswered, TurnedAway, Possible, DevoursItself, LetThrough, CarriedOut, NoneUnder, Names,
      Utf8.Encoded, AllOrdinary, FromSegments, FileTree.WellFormed, PutOutcome, MkcolOutcome, DeleteOutcome,
      LockOutcome, UnlockOutcome, Blocking, Live;
    TargetOf(record.request.path, texts);
    TargetOf(record.request.destination.value, others);
    OrdinaryIsPlain(Names(texts));
    OrdinaryIsPlain(Names(others));
    StoppedIff(record.before.locks, record.checkedAt, Names(texts), record.request.tokens);
    StoppedIff(record.before.locks, record.checkedAt, Names(others), record.request.tokens);
  }

  /** A destination in the source is in a directory of it. */
  lemma InsideIsBelowDir(tree: Tree, from: Path, to: Path)
    requires WellFormed(tree) && to != [] && IsDir(tree, Parent(to)) && from <= to && from != to
    ensures IsDir(tree, from)
  {
    AncestorIsDir(tree, from, Parent(to));
  }

  lemma PartedNames(tree: Tree, view: View, source: DavTarget, destination: DavTarget, move: bool, from: Path,
                    to: Path)
    requires Parted(tree, view, source, destination, move, from, to)
    ensures source.root.Some? && source.relative != [] && destination.root.Some? && destination.relative != []
  {
    NoNameNoPath(tree, view, source);
    NoNameNoPath(tree, view, destination);
    NoNameNoRead(tree, view, source);
  }

  lemma PartedNotRefused(tree: Tree, view: View, source: DavTarget, destination: DavTarget, move: bool, from: Path,
                         to: Path)
    requires WellFormed(tree) && Parted(tree, view, source, destination, move, from, to)
    requires !IsLink(tree, to) && !(from <= to)
    ensures EndsRefusal(tree, view, source, destination, move) == None
  {
    hide Aim, ResolveParent, Resolve, FileTree.WellFormed;
    PartedNames(tree, view, source, destination, move, from, to);
    AimedOrWritten(tree, view, destination);
  }

  /** What is known of a COPY or MOVE that has started to write. */
  lemma AttemptSays(devices: Devices, before: Moment, after: Moment, view: View, source: DavTarget,
                    destination: DavTarget, overwrite: bool, move: bool, from: Path, to: Path, staging: Path,
                    swapped: bool, status: Status, seen: Seen)
    requires WellFormed(before.tree) && Calm(before, after) && staging != [] && staging !in before.tree
    requires Parted(before.tree, view, source, destination, move, from, to)
    requires LetThrough(before, after, from, to, overwrite, seen)
    requires CarriedOut(devices, before, after, from, to, staging, move, swapped, status, seen)
    ensures WritePath(before.tree, view, destination) == Some(to)
    ensures SourcePath(before.tree, view, source, move) == Some(from)
    ensures EndsRefusal(before.tree, view, source, destination, move) == None
    ensures to != [] && (move ==> from != []) && !(from <= to) && (to in before.tree ==> overwrite)
    ensures !(move && !Renames(devices, from, to, move) && to <= from) ==>
              if Succeeds(status) then
                && status == (if to in before.tree then NoContent else Created)
                && Transferred(before.tree, after.tree, from, to, move, Renames(devices, from, to, move))
              else
                && after.tree == before.tree
                && (!Renames(devices, from, to, move) ==> status == IoStatus(CopyError(before.tree, from)))
  {
    hide AimedPath, WritePath, ReadPath, Copyable, FileTree.WellFormed, Transferred, Fits, Tidy, KeptUntilSwap,
      EndsFit, StagingCleared, Sub, EndsRefusal;
    AimedOrWritten(before.tree, view, destination);
    if from <= to { InsideIsBelowDir(before.tree, from, to); }
    PartedNotRefused(before.tree, view, source, destination, move, from, to);
    if Succeeds(status) && !(move && !Renames(devices, from, to, move) && to <= from) {
      TreeAfterTransfer(devices, before, after, from, to, staging, move, swapped, status, seen);
    }
  }

  lemma PossibleIff(devices: Devices, tree: Tree, view: View, source: DavTarget, destination: DavTarget,
                    overwrite: bool, move: bool, from: Path, to: Path)
    requires WellFormed(tree) && source.root.Some? && source.relative != []
    requires SourcePath(tree, view, source, move) == Some(from) && WritePath(tree, view, destination) == Some(to)
    requires from != [] && from in tree && !IsLink(tree, from) && to != []
    ensures Possible(devices, tree, view, source, destination, overwrite, move) <==>
              && IsDir(tree, Parent(to)) && !(from <= to) && (overwrite || to !in tree)
              && (Renames(devices, from, to, move) || Copyable(tree, from))
    ensures DevoursItself(devices, tree, view, source, destination, move) <==>
              move && !Renames(devices, from, to, move) && to <= from
  {
    hide Copyable, FileTree.WellFormed;
    AimedOrWritten(tree, view, destination);
  }

  lemma ParentIsThere(tree: Tree, place: Path)
    requires WellFormed(tree) && place != []
    ensures place in tree ==> Parent(place) == [] || Parent(place) in tree
  {
  }

  /** The source of a COPY need not be in a folder that may be written. */
  lemma SourceFound(tree: Tree, view: View, texts: seq<string>, move: bool)
    requires WellFormed(tree) && |texts| > 1 && AllOrdinary(Names(texts))
    ensures var source := FromSegments(Names(texts));
            Names(texts)[0] !in SourceRoots(view, move) ==> SourceRefusal(tree, view, source, move) == Some(Forbidden)
    ensures Clean(tree, SourceRoots(view, move), Names(texts)) ==>
              var source, from := FromSegments(Names(texts)), Place(SourceRoots(view, move), Names(texts));
              && from != [] && !IsLink(tree, from)
              && if from !in tree || DriveLike(Names(texts)[1]) || (move && ControlIn(texts[|texts| - 1])) then
                   SourceRefusal(tree, view, source, move) == Some(Absent)
                 else
                   SourceRefusal(tree, view, source, move) == None && SourcePath(tree, view, source, move) == Some(from)
  {
    hide WritePath, ReadPath, Utf8.Encoded, AllOrdinary, AllPlain, LinkFree, DriveLike, ControlIn;
    var names := Names(texts);
    RelativeOf(names);
    if Clean(tree, SourceRoots(view, move), names) {
      LinkFreeEnd(tree, Place(SourceRoots(view, move), names));
      if move { WritesTo(tree, view, texts); } else { ReadsFrom(tree, view, texts); }
      ParentIsThere(tree, Place(SourceRoots(view, move), names));
    }
  }

  /** Why a COPY or MOVE is refused, locks and overwriting apart. */
  lemma EndsRefused(tree: Tree, view: View, texts: seq<string>, others: seq<string>, move: bool)
    requires WellFormed(tree) && |texts| > 1 && |others| > 1
    requires AllOrdinary(Names(texts)) && AllOrdinary(Names(others))
    requires Clean(tree, SourceRoots(view, move), Names(texts)) && Clean(tree, view.writable, Names(others))
    ensures var (source, destination) := (FromSegments(Names(texts)), FromSegments(Names(others)));
            var from, to := Place(SourceRoots(view, move), Names(texts)), Place(view.writable, Names(others));
            && from != [] && to != []
            && EndsRefusal(tree, view, source, destination, move) ==
                 if from !in tree || DriveLike(Names(texts)[1]) || (move && ControlIn(texts[|texts| - 1])) then
                   Some(Absent)
                 else if Unreachable(tree, to, others) || !IsDir(tree, Parent(to)) then Some(Conflicting)
                 else if from <= to then Some(Forbidden)
                 else None
  {
    hide WritePath, SourceRefusal, SourcePath, Utf8.Encoded, AllOrdinary, AllPlain, LinkFree, DriveLike, ControlIn,
      Place, FileTree.WellFormed;
    RelativeOf(Names(texts));
    RelativeOf(Names(others));
    SourceFound(tree, view, texts, move);
    WritesTo(tree, view, others);
    var from, to := Place(SourceRoots(view, move), Names(texts)), Place(view.writable, Names(others));
    if IsDir(tree, Parent(to)) && from <= to && from != to { InsideIsBelowDir(tree, from, to); }
  }

  /** Otherwise both ends are where their names say. */
  lemma ResolvedEnds(tree: Tree, view: View, texts: seq<string>, others: seq<string>, move: bool)
    requires WellFormed(tree) && |texts| > 1 && |others| > 1
    requires AllOrdinary(Names(texts)) && AllOrdinary(Names(others))
    requires Clean(tree, SourceRoots(view, move), Names(texts)) && Clean(tree, view.writable, Names(others))
    requires EndsRefusal(tree, view, FromSegments(Names(texts)), FromSegments(Names(others)), move) == None
    ensures var from, to := Place(SourceRoots(view, move), Names(texts)), Place(view.writable, Names(others));
            && SourcePath(tree, view, FromSegments(Names(texts)), move) == Some(from)
            && WritePath(tree, view, FromSegments(Names(others))) == Some(to)
            && from in tree && !IsLink(tree, from)
  {
    hide WritePath, SourceRefusal, SourcePath, Utf8.Encoded, AllOrdinary, AllPlain, LinkFree, DriveLike, ControlIn,
      Place, FileTree.WellFormed;
    SourceFound(tree, view, texts, move);
    WritesTo(tree, view, others);
  }

  lemma NamelessEnds(tree: Tree, view: View, texts: seq<string>, others: seq<string>, move: bool)
    requires WellFormed(tree) && texts != [] && others != []
    requires AllOrdinary(Names(texts)) && AllOrdinary(Names(others))
    ensures |texts| == 1 || |others| == 1 || Names(texts)[0] !in SourceRoots(view, move) ==>
              EndsRefusal(tree, view, FromSegments(Names(texts)), FromSegments(Names(others)), move) == Some(Forbidden)
  {
    hide WritePath, ReadPath, Utf8.Encoded, AllOrdinary;
    RelativeOf(Names(texts));
    RelativeOf(Names(others));
  }

  /**
   What COPY and MOVE answer, and what becomes of the tree, a MOVE apart that goes across
   devices onto a folder its source is in.
   */
  lemma TransferAnswers(devices: Devices, limit: nat, record: Record, texts: seq<string>, others: seq<string>)
    requires Happened(devices, limit, record) && Calm(record.before, record.after) && AllTaken(record.before.locks)
    requires record.request.TransferRequest? && Reads(record.request.path, texts)
    requires record.request.destination.Some? && Reads(record.request.destination.value, others)
    ensures |texts| == 1 || |others| == 1
            || Names(texts)[0] !in SourceRoots(record.request.view, record.request.move) ==>
              record.status == Forbidden && record.after.tree == record.before.tree
    ensures (&& |texts| > 1 && |others| > 1
             && Clean(record.before.tree, SourceRoots(record.request.view, record.request.move), Names(texts))
             && Clean(record.before.tree, record.request.view.writable, Names(others))) ==>
              var (tree, view, move) := (record.before.tree, record.request.view, record.request.move);
              var from, to := Place(SourceRoots(view, move), Names(texts)), Place(view.writable, Names(others));
              && from != [] && to != []
              && if from !in tree || DriveLike(Names(texts)[1]) || (move && ControlIn(texts[|texts| - 1])) then
                   record.status == Absent && record.after.tree == tree
                 else if Unreachable(tree, to, others) || !IsDir(tree, Parent(to)) then
                   record.status == Conflicting && record.after.tree == tree
                 else if from <= to then record.status == Forbidden && record.after.tree == tree
                 else if EndsStopped(record, texts, others) then record.status == Locked && record.after.tree == tree
                 else if to in tree && !record.request.overwrite then
                   record.status == PreconditionFailed && record.after.tree == tree
                 else if move && !Renames(devices, from, to, move) && to <= from then true
                 else if Renames(devices, from, to, move) || CanBeCopied(tree, from) then
                   && record.status == (if to in tree then NoContent else Created)
                   && Transferred(tree, record.after.tree, from, to, move, Renames(devices, from, to, move))
                 else
                   && record.status == (if tree[from].Special? then BadRequest else Forbidden)
                   && record.after.tree == tree
  {
    hide Happened, AllTaken, Reads, WritePath, SourcePath, EndsRefusal, Possible, DevoursItself, Parted, LetThrough,
      CarriedOut, Copyable, CanBeCopied, Transferred, Utf8.Encoded, AllOrdinary, AllPlain, LinkFree, DriveLike,
      ControlIn, Place, Names, FileTree.WellFormed, FromSegments, EndsStopped, Unreachable;
    var (tree, view, move) := (record.before.tree, record.request.view, record.request.move);
    var source, destination := FromSegments(Names(texts)), FromSegments(Names(others));
    TransferSays(devices, limit, record, texts, others);
    NamelessEnds(tree, view, texts, others, move);
    if record.report.Attempted? {
      AttemptSays(devices, record.before, record.after, view, source, destination, record.request.overwrite, move,
                  record.report.source, record.report.destination, record.report.staging, record.report.swapped,
                  record.status, record.seen);
    }
    if && |texts| > 1 && |others| > 1
       && Clean(tree, SourceRoots(view, move), Names(texts)) && Clean(tree, view.writable, Names(others))
    {
      var from, to := Place(SourceRoots(view, move), Names(texts)), Place(view.writable, Names(others));
      EndsRefused(tree, view, texts, others, move);
      if EndsRefusal(tree, view, source, destination, move) == None {
        ResolvedEnds(tree, view, texts, others, move);
        PossibleIff(devices, tree, view, source, destination, record.request.overwrite, move, from, to);
        CopyableIs(tree, from);
      }
    }
  }

  // ---------------------------------------------------------------------------
  // LOCK and UNLOCK
  // ---------------------------------------------------------------------------

  /** The live lock of a token covers the names: it was taken on them, or with depth infinity on a part of them. */
  ghost predicate Renewable(locks: Table, now: nat, names: seq<Bytes>, token: Bytes) {
    && token in locks && now < locks[token].expiresAt
    && exists locked :: TakenOn(locks[token], locked)
                        && (names == locked || (locks[token].depthInfinity && locked <= names))
  }

  lemma RenewableIff(locks: Table, now: nat, names: seq<Bytes>, token: Bytes)
    requires AllTaken(locks) && names != [] && AllFileNames(names)
    ensures Renewable(locks, now, names, token) <==>
              token in Live(locks, now) && locks[token].Covers(Join(names, SLASH))
  {
    if token in locks && now < locks[token].expiresAt {
      assert token in Live(locks, now);
      var locked :| TakenOn(locks[token], locked);
      CoversNames(locks[token], locked, names);
      forall other | TakenOn(locks[token], other) {
        CoversNames(locks[token], other, names);
      }
    }
  }

  /** A LOCK that has something to give. */
  ghost predicate GivesLock(record: Record, path: Option<Path>, names: seq<Bytes>)
    requires record.request.LockRequest?
  {
    && path.Some? && path.value != []
    && if record.request.hasBody then
         && !Stopped(record.before.locks, record.checkedAt, names, [])
         && (path.value in record.before.tree || IsDir(record.before.tree, Parent(path.value)))
       else
         && record.request.tokens != []
         && Renewable(record.before.locks, record.checkedAt, names, record.request.tokens[0])
  }

  /** What the outcome of LOCK says if no call fails, over the resolved path. */
  lemma LockSays(devices: Devices, limit: nat, record: Record, texts: seq<string>)
    requires Happened(devices, limit, record) && Calm(record.before, record.after) && AllTaken(record.before.locks)
    requires record.request.LockRequest? && Reads(record.request.path, texts)
    ensures var (tree, view, target) := (record.before.tree, record.request.view, FromSegments(Names(texts)));
            var (request, at, names) := (record.request, record.checkedAt, Names(texts));
            && WellFormed(tree) && AllOrdinary(names) && texts != [] && (target.relative == [] <==> |texts| == 1)
            && target.root == Some(names[0])
            && (match record.granted
                case None =>
                  && record.after.tree == tree
                  && record.status == LockRefusal(tree, view, target, request.tokens, request.hasBody,
                                                  !Stopped(record.before.locks, at, names, []))
                case Some(lock) =>
                  && lock.timeout == LockTimeout(request.timeout)
                  && lock.token in record.after.locks && record.after.locks[lock.token] == lock
                  && if request.hasBody then
                       NewLock(record.before, record.after, WritePath(tree, view, target), Join(names, SLASH),
                               request.owner, request.depthInfinity, record.uuid, record.status, record.seen, lock)
                     else RenewedLock(record.before, record.after, request.tokens, record.status, lock))
            && (record.granted.Some? <==> GivesLock(record, WritePath(tree, view, target), names))
  {
    hide Stopped, AllTaken, GuardedStep, OnlyGone, Unused, Sound, AimedPath, WritePath, LockKey, Reads, FromPath,
      LockRefusal, NewLock, RenewedLock, Names, Utf8.Encoded, AllOrdinary, FromSegments, FileTree.WellFormed, Renewable,
      PutOutcome, MkcolOutcome, DeleteOutcome, TransferOutcome, UnlockOutcome;
    TargetOf(record.request.path, texts);
    OrdinaryIsPlain(Names(texts));
    FreeIff(record, texts, []);
    AimedOrWritten(record.before.tree, record.request.view, FromSegments(Names(texts)));
    if record.request.tokens != [] {
      RenewableIff(record.before.locks, record.checkedAt, Names(texts), record.request.tokens[0]);
    }
  }

  lemma NotWritable(tree: Tree, view: View, target: DavTarget)
    requires target.root.None? || target.relative == [] || target.root.value !in view.writable
    ensures WritePath(tree, view, target) == None
  {
  }

  lemma NewLockSays(before: Moment, after: Moment, place: Path, key: Bytes, owner: Option<Bytes>, depthInfinity: bool,
                    uuid: Bytes, status: Status, seen: Seen, lock: LockEntry)
    requires NewLock(before, after, Some(place), key, owner, depthInfinity, uuid, status, seen, lock)
    requires Calm(before, after) && place != [] && !IsLink(before.tree, place)
    ensures lock.path == key && lock.owner == owner && lock.depthInfinity == depthInfinity
    ensures lock.token !in before.locks && lock.token == TOKEN_PREFIX + uuid
    ensures if place in before.tree then status == Ok && after.tree == before.tree
            else status == Created && after.tree == before.tree[place := File([])]
  {
    hide OpensAt, CanOpen;
    LockedInPlace(before, after, place, key, owner, depthInfinity, uuid, status, seen, lock);
  }

  /** The lock of the first token is in the table with the time asked for, and otherwise as it was. */
  ghost predicate Prolonged(record: Record)
    requires record.request.LockRequest?
  {
    && record.request.tokens != [] && record.granted.Some?
    && var (token, lock) := (record.request.tokens[0], record.granted.value);
    && token in record.before.locks && token in record.after.locks && record.after.locks[token] == lock
    && lock.timeout == LockTimeout(record.request.timeout)
    && lock == record.before.locks[token].(timeout := lock.timeout, expiresAt := lock.expiresAt)
  }

  /** A lock under a new token is in the table, on these names, with the owner, depth and time asked for. */
  ghost predicate TakenAsAsked(record: Record, names: seq<Bytes>)
    requires record.request.LockRequest?
  {
    && record.granted.Some?
    && var lock := record.granted.value;
    && TakenOn(lock, names) && lock.token !in record.before.locks
    && lock.token in record.after.locks && record.after.locks[lock.token] == lock
    && lock.owner == record.request.owner && lock.depthInfinity == record.request.depthInfinity
    && lock.timeout == LockTimeout(record.request.timeout)
  }

  ghost predicate LockAnswered(record: Record, texts: seq<string>, tree: Tree, place: Path)
    requires record.request.LockRequest? && |texts| > 1 && place != []
  {
    var (request, at, names) := (record.request, record.checkedAt, Names(texts));
    if Unreachable(tree, place, texts) then record.status == Conflicting && record.granted.None?
    else if !request.hasBody then
      if request.tokens == [] then record.status == BadRequest && record.granted.None?
      else if !Renewable(record.before.locks, at, names, request.tokens[0]) then
        record.status == PreconditionFailed && record.granted.None?
      else record.status == Ok && record.after.tree == tree && Prolonged(record)
    else if Stopped(record.before.locks, at, names, []) then record.status == Locked && record.granted.None?
    else if place !in tree && !IsDir(tree, Parent(place)) then record.status == Conflicting && record.granted.None?
    else
      && TakenAsAsked(record, names)
      && if place in tree then record.status == Ok && record.after.tree == tree
         else record.status == Created && record.after.tree == tree[place := File([])]
  }

  /**
   What LOCK answers: a body asks for a new lock, and what is missing is created empty; no
   body asks for more time for the lock of the first token.
   */
  lemma LockAnswers(devices: Devices, limit: nat, record: Record, texts: seq<string>)
    requires Happened(devices, limit, record) && Calm(record.before, record.after) && AllTaken(record.before.locks)
    requires record.request.LockRequest? && Reads(record.request.path, texts)
    ensures record.granted.None? ==> record.after.tree == record.before.tree
    ensures |texts| == 1 || Names(texts)[0] !in record.request.view.writable ==>
              record.status == Forbidden && record.granted.None?
    ensures |texts| > 1 && Clean(record.before.tree, record.request.view.writable, Names(texts)) ==>
              var place, tree := Place(record.request.view.writable, Names(texts)), record.before.tree;
              place != [] && LockAnswered(record, texts, tree, place)
  {
    hide Happened, AllTaken, Reads, WritePath, NewLock, Utf8.Encoded, AllOrdinary, AllPlain, LinkFree, DriveLike,
      ControlIn, Place, Names, FileTree.WellFormed, FromSegments, Stopped, Renewable, AllFileNames;
    var (tree, view, names) := (record.before.tree, record.request.view, Names(texts));
    LockSays(devices, limit, record, texts);
    OrdinaryIsPlain(names);
    if |texts| == 1 || names[0] !in view.writable { NotWritable(tree, view, FromSegments(names)); }
    if |texts| > 1 && Clean(tree, view.writable, names) {
      var place := Place(view.writable, names);
      WritesTo(tree, view, texts);
      LinkFreeEnd(tree, place);
      if record.granted.Some? && record.request.hasBody {
        NewLockSays(record.before, record.after, place, Join(names, SLASH), record.request.owner,
                    record.request.depthInfinity, record.uuid, record.status, record.seen, record.granted.value);
      }
    }
  }

  /** What UNLOCK answers: only a live lock taken on these very names goes, by its token. */
  lemma UnlockAnswers(devices: Devices, limit: nat, record: Record, texts: seq<string>)
    requires Happened(devices, limit, record) && AllTaken(record.before.locks)
    requires record.request.UnlockRequest? && Reads(record.request.path, texts)
    ensures record.after.tree == record.before.tree
    ensures if Names(texts)[0] !in record.request.view.writable then record.status == Forbidden
            else if record.request.token.None? then record.status == BadRequest
            else
              var token, locks := record.request.token.value, record.before.locks;
              if && token in locks && record.after.clock < locks[token].expiresAt
                 && TakenOn(locks[token], Names(texts))
              then record.status == NoContent && token !in record.after.locks
              else record.status == Conflicting
  {
    hide AllTaken, Reads, FromPath, FromSegments, Sound, Unused, LockKey, Names, AllOrdinary, AllFileNames,
      FileTree.WellFormed, PutOutcome, MkcolOutcome, DeleteOutcome, TransferOutcome, LockOutcome;
    TargetOf(record.request.path, texts);
    OrdinaryIsPlain(Names(texts));
  }

  // ---------------------------------------------------------------------------
  // Every lock is taken on names
  // ---------------------------------------------------------------------------

  lemma FewerAreTaken(before: Table, after: Table)
    requires AllTaken(before) && NoNewLocks(before, after)
    ensures AllTaken(after)
  {
  }

  lemma OneMoreTaken(locks: Table, token: Bytes)
    requires AllTaken(locks - {token}) && token in locks && exists locked :: TakenOn(locks[token], locked)
    ensures AllTaken(locks)
  {
    hide TakenOn;
    forall other | other in locks ensures exists locked :: TakenOn(locks[other], locked) {
      if other != token { assert other in locks - {token}; }
    }
  }

  /** The lock LOCK grants is on the names of its target. */
  lemma GrantIsTaken(path: Bytes, lock: LockEntry)
    requires FromPath(path).Success? && FromPath(path).value.relative != []
    requires lock.path == LockKey(FromPath(path).value)
    ensures exists locked :: TakenOn(lock, locked)
  {
    hide AllOrdinary, AllFileNames;
    var names := ParsedSegments(path);
    LockKeyIsJoin(names);
    OrdinaryIsPlain(names);
    assert TakenOn(lock, names);
  }

  lemma SamePathTaken(before: LockEntry, after: LockEntry, locked: seq<Bytes>)
    requires TakenOn(before, locked) && SameButTime(before, after)
    ensures TakenOn(after, locked)
  {
  }

  lemma LockKeepsTaken(devices: Devices, limit: nat, record: Record)
    requires Happened(devices, limit, record) && record.request.LockRequest? && record.granted.Some?
    requires FromPath(record.request.path).Success? && AllTaken(record.before.locks)
    ensures AllTaken(record.after.locks)
  {
    hide TakenOn, GuardedStep, Unused, Sound, WritePath, LockKey, FromPath, LockRefusal, FileTree.WellFormed,
      Unhindered, Aim, Followed, CanOpen, OpensAt, Emptied;
    var lock, target := record.granted.value, FromPath(record.request.path).value;
    NoNameNoPath(record.before.tree, record.request.view, target);
    if record.request.hasBody {
      GrantIsTaken(record.request.path, lock);
    } else {
      var locked :| TakenOn(record.before.locks[lock.token], locked);
      SamePathTaken(record.before.locks[lock.token], lock, locked);
    }
    FewerAreTaken(record.before.locks, record.after.locks - {lock.token});
    OneMoreTaken(record.after.locks, lock.token);
  }

  lemma StepKeepsTaken(devices: Devices, limit: nat, record: Record)
    requires Happened(devices, limit, record) && AllTaken(record.before.locks)
    ensures AllTaken(record.after.locks)
  {
    hide AllTaken, GuardedStep, Unused, Sound, WritePath, AimedPath, LockKey, FromPath, LockRefusal, Grantable, NewLock,
      RenewedLock, FileTree.WellFormed, Unhindered, CarriedOut, LetThrough, Possible, DevoursItself, Parted,
      ForgottenKeys, TransferAnswered, PutAnswered;
    if FromPath(record.request.path).Success? && record.request.LockRequest? && record.granted.Some? {
      LockKeepsTaken(devices, limit, record);
    } else if record.request.UnlockRequest? && record.status == NoContent && FromPath(record.request.path).Success? {
      FewerAreTaken(record.before.locks, record.before.locks - {record.request.token.value});
      FewerAreTaken(record.before.locks - {record.request.token.value}, record.after.locks);
    } else {
      FewerAreTaken(record.before.locks, record.after.locks);
    }
  }

  /** So over every run that starts without locks. */
  lemma {:induction false} LocksAreTaken(devices: Devices, limit: nat, history: seq<Record>, start: Moment, end: Moment)
    requires forall i | 0 <= i < |history| :: Happened(devices, limit, history[i])
    requires Chained(history, start, end) && AllTaken(start.locks)
    ensures AllTaken(end.locks) && forall i | 0 <= i < |history| :: AllTaken(history[i].before.locks)
    ensures AllTaken(map[])
    decreases |history|
  {
    hide Happened, TakenOn;
    if history != [] {
      var rest := history[1..];
      assert Happened(devices, limit, history[0]);
      StepKeepsTaken(devices, limit, history[0]);
      assert forall i | 0 <= i < |rest| :: rest[i] == history[i + 1];
      LocksAreTaken(devices, limit, rest, history[0].after, end);
      assert forall i | 0 < i < |history| :: history[i] == rest[i - 1];
    }
  }

  // ---------------------------------------------------------------------------
  // What never reaches a handler
  // ---------------------------------------------------------------------------

  /** A path outside "/webdav" is not found, a name that will not do is a bad request, and nothing happens. */
  lemma BadPathAnswers(devices: Devices, limit: nat, record: Record, pieces: seq<Bytes>, i: nat)
    requires Happened(devices, limit, record)
    ensures record.request.path != Utf8.Encoded("/webdav") && !(Utf8.Encoded("/webdav/") <= record.request.path) ==>
              record.status == Absent && record.after == record.before
    ensures (&& record.request.path == Url(pieces) && Free(pieces, SLASH) && i < |pieces| && pieces[i] != []
             && !exists text, spelling ::
                  GoodText(text) && AllSpell(spelling, Utf8.Encoded(text)) && Concat(spelling) == pieces[i]) ==>
              record.status == BadRequest && record.after == record.before
  {
    hide Handled, Sound, Unused, FromPath, Utf8.Encoded, GoodText, AllSpell, Concat, Url;
    UrlPrefix(record.request.path);
    if && record.request.path == Url(pieces) && Free(pieces, SLASH) && i < |pieces| && pieces[i] != []
       && !exists text, spelling ::
            GoodText(text) && AllSpell(spelling, Utf8.Encoded(text)) && Concat(spelling) == pieces[i]
    {
      UrlRefuses(pieces, i);
    }
  }

  /** A Destination header that is missing, or no better, after a source that has a name. */
  lemma BadDestinationAnswers(devices: Devices, limit: nat, record: Record, texts: seq<string>, pieces: seq<Bytes>,
                              i: nat)
    requires Happened(devices, limit, record) && record.request.TransferRequest? && Reads(record.request.path, texts)
    ensures record.request.destination == None ==>
              record.status == (if |texts| == 1 then Forbidden else BadRequest) && record.after == record.before
    ensures (&& record.request.destination.Some?
             && record.request.destination.value != Utf8.Encoded("/webdav")
             && !(Utf8.Encoded("/webdav/") <= record.request.destination.value)) ==>
              record.status == (if |texts| == 1 then Forbidden else Absent) && record.after == record.before
    ensures (&& record.request.destination == Some(Url(pieces)) && Free(pieces, SLASH)
             && i < |pieces| && pieces[i] != []
             && !exists text, spelling ::
                  GoodText(text) && AllSpell(spelling, Utf8.Encoded(text)) && Concat(spelling) == pieces[i]) ==>
              record.status == (if |texts| == 1 then Forbidden else BadRequest) && record.after == record.before
  {
    hide TransferOutcome, Sound, Unused, FromPath, Utf8.Encoded, GoodText, AllSpell, Concat, Url, Reads, AllOrdinary,
      Names, FromSegments, FileTree.WellFormed, PutOutcome, MkcolOutcome, DeleteOutcome, LockOutcome, UnlockOutcome;
    TargetOf(record.request.path, texts);
    if record.request.destination.Some? { UrlPrefix(record.request.destination.value); }
    if && record.request.destination == Some(Url(pieces)) && Free(pieces, SLASH) && i < |pieces| && pieces[i] != []
       && !exists text, spelling ::
            GoodText(text) && AllSpell(spelling, Utf8.Encoded(text)) && Concat(spelling) == pieces[i]
    {
      UrlRefuses(pieces, i);
    }
  }

  lemma TokensBegin()
    ensures TOKEN_PREFIX == Utf8.Encoded("opaquelocktoken:")
  {
    hide Utf8.Encoded;
    AsciiText("opaquelocktoken:", "opaquelocktoken:");
  }

  lemma UploadsBegin()
    ensures STAGING_PREFIX + UPLOAD + DASH == Utf8.Encoded(".webdav-upload-")
  {
    hide Utf8.Encoded;
    AsciiText(".webdav-upload-", ".webdav-upload-");
  }

  lemma StagesBegin()
    ensures STAGING_PREFIX + STAGE + DASH == Utf8.Encoded(".webdav-stage-")
  {
    hide Utf8.Encoded;
    AsciiText(".webdav-stage-", ".webdav-stage-");
  }

  /** The names the program makes up, and the tokens of its locks. */
  lemma MadeUpNames(uuid: Bytes, target: Path, text: string)
    requires target != [] && target[|target| - 1] == Utf8.Encoded(text)
    ensures TOKEN_PREFIX + uuid == Utf8.Encoded("opaquelocktoken:") + uuid
    ensures StagingPath(target, UPLOAD, uuid)
            == Parent(target) + [Utf8.Encoded(".webdav-upload-") + uuid + ['-' as int] + Utf8.Encoded(text)]
    ensures StagingPath(target, STAGE, uuid)
            == Parent(target) + [Utf8.Encoded(".webdav-stage-") + uuid + ['-' as int] + Utf8.Encoded(text)]
  {
    hide Utf8.Encoded, Utf8.Valid;
    TokensBegin();
    UploadsBegin();
    StagesBegin();
    Utf8.EncodedIsValid(text);
  }
}
