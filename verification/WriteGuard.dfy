/** What the lock check of a handler buys: the changes it then makes touch no lock it was not shown. */
module WriteGuard {
  import opened ByteStrings
  import opened DavPath
  import opened FileTree
  import opened Locks
  import opened SafePath
  import opened Staging
  import opened Wrappers

  /** Root keys and the folders configured for them. */
  type Roots = map<Bytes, Path>

  /** A parsed target, as `DavPath.ParsedSegments` shows the parser to return. */
  ghost predicate WellParsed(target: DavTarget) {
    AllOrdinary(Segments(target)) && target == FromSegments(Segments(target))
  }

  /** What the handlers are handed is what the parser makes. */
  lemma ParsedIsWellParsed(path: Bytes)
    requires FromPath(path).Success?
    ensures WellParsed(FromPath(path).value)
  {
    var names := ParsedSegments(path);
    SegmentsOfTarget(names);
  }

  /** Where a list of names lives when no symbolic link interferes. */
  function Place(roots: Roots, names: seq<Bytes>): Path
    requires names != [] && names[0] in roots
  {
    roots[names[0]] + names[1..]
  }

  /** No configured folder lies inside another. */
  ghost predicate SeparateRoots(roots: Roots) {
    && (forall root | root in roots :: AllPlain(roots[root]))
    && (forall a, b | a in roots && b in roots && a != b :: Incomparable(roots[a], roots[b]))
  }

  /** No symbolic link on the way to a target, and none in its place. */
  ghost predicate ClearWay(tree: Tree, roots: Roots, target: DavTarget) {
    target.root.Some? && target.root.value in roots ==> LinkFree(tree, Place(roots, Segments(target)))
  }

  /** No symbolic link above, at or below a configured folder. */
  ghost predicate LinksKeptOut(tree: Tree, roots: Roots) {
    forall root, p | root in roots && IsLink(tree, p) :: Incomparable(roots[root], p)
  }

  /** Then every target has a clear way. */
  lemma NoLinksClearWay(tree: Tree, roots: Roots, target: DavTarget)
    requires LinksKeptOut(tree, roots)
    ensures ClearWay(tree, roots, target)
  {
    if target.root.Some? && target.root.value in roots {
      var base, path := roots[target.root.value], Place(roots, Segments(target));
      forall i | 0 < i <= |path| ensures !IsLink(tree, path[..i]) {
        assert i <= |base| ==> path[..i] == base[..i];
        assert i > |base| ==> path[..i][..|base|] == base;
      }
    }
  }

  ghost predicate Changed(before: Tree, after: Tree, p: Path) {
    (p in before) != (p in after) || (p in before && p in after && before[p] != after[p])
  }

  /**
   Every entry that was created, replaced or removed and that a live lock covers: the
   request named the token of that lock.
   */
  ghost predicate Guarded(before: Tree, after: Tree, roots: Roots, locks: Table, tokens: seq<Bytes>) {
    forall names: seq<Bytes>, token: Bytes
      | names != [] && names[0] in roots && AllFileNames(names) && token in locks
        && locks[token].Covers(Join(names, SLASH)) && Changed(before, after, Place(roots, names))
      :: locks[token].token in tokens
  }

  lemma FewerLocksAreGuarded(before: Tree, after: Tree, roots: Roots, locks: Table, now: nat, tokens: seq<Bytes>)
    requires Guarded(before, after, roots, locks, tokens)
    ensures Guarded(before, after, roots, Live(locks, now), tokens)
  {
  }

  /** The answer `conflict` gave: every lock blocking the names was named. */
  ghost predicate Unblocked(locks: Table, names: seq<Bytes>, tokens: seq<Bytes>) {
    Blocking(locks, Join(names, SLASH), tokens) == {}
  }

  /** One name below another, in the tree of places, is below it as a list. */
  lemma PlaceOrder(roots: Roots, a: seq<Bytes>, b: seq<Bytes>)
    requires SeparateRoots(roots)
    requires a != [] && b != [] && a[0] in roots && b[0] in roots && Place(roots, a) <= Place(roots, b)
    ensures a <= b
  {
    PrefixesComparable(roots[a[0]], roots[b[0]], Place(roots, b));
    var base := roots[a[0]];
    assert a[0] == b[0];
    assert a[1..] == Place(roots, a)[|base|..] && b[1..] == Place(roots, b)[|base|..];
    assert Place(roots, a) == Place(roots, b)[..|Place(roots, a)|];
    assert a[1..] <= b[1..];
    assert a == [a[0]] + a[1..] && b == [b[0]] + b[1..];
  }

  /** A lock that covers an entry below the names blocks the names. */
  lemma CoverBelowBlocks(lock: LockEntry, names: seq<Bytes>, below: seq<Bytes>)
    requires names != [] && names <= below && AllFileNames(below)
    requires lock.Covers(Join(below, SLASH))
    ensures Blocks(lock, Join(names, SLASH))
  {
    var whole := lock.(path := Join(names, SLASH), depthInfinity := true);
    assert AllFileNames(names);
    JoinOrder(names, below);
    assert whole.Covers(Join(below, SLASH));
    OverlapBlocks(lock, whole, Join(below, SLASH));
  }

  /**
   A request for `names` is stopped by every lock that covers `other` exactly when `other` is
   at or below `names`. If a symbolic link makes the one lead to the other in any other way,
   there is a lock that covers what the request changes and does not stop it.
   */
  lemma EveryCoverBlocksIff(names: seq<Bytes>, other: seq<Bytes>)
    requires names != [] && other != [] && AllFileNames(names) && AllFileNames(other)
    ensures (forall lock: LockEntry | lock.Covers(Join(other, SLASH)) :: Blocks(lock, Join(names, SLASH)))
            <==> names <= other
  {
    if names <= other {
      forall lock: LockEntry | lock.Covers(Join(other, SLASH)) ensures Blocks(lock, Join(names, SLASH)) {
        CoverBelowBlocks(lock, names, other);
      }
    } else {
      var lock := LockEntry([], Join(other, SLASH), None, false, 0, 0);
      JoinOrder(names, other);
      assert lock.Covers(Join(other, SLASH)) && !Blocks(lock, Join(names, SLASH));
    }
  }

  lemma NamedOrBlocking(locks: Table, token: Bytes, key: Bytes, tokens: seq<Bytes>)
    requires token in locks && Blocks(locks[token], key)
    ensures locks[token].token in tokens || locks[token] in Blocking(locks, key, tokens)
  {
  }

  /** Changes confined to places whose names were unblocked are guarded. */
  lemma GuardHolds(before: Tree, after: Tree, roots: Roots, locks: Table, tokens: seq<Bytes>,
                   cleared: set<seq<Bytes>>, places: set<Path>)
    requires SeparateRoots(roots)
    requires forall names | names in cleared ::
               names != [] && names[0] in roots && (AllFileNames(names) ==> Unblocked(locks, names, tokens))
    requires forall p | p in places ::
               exists names :: names in cleared && names != [] && names[0] in roots && p == Place(roots, names)
    requires SameOutside(before, after, places)
    ensures Guarded(before, after, roots, locks, tokens)
  {
    forall names: seq<Bytes>, token: Bytes
      | names != [] && names[0] in roots && AllFileNames(names) && token in locks
        && locks[token].Covers(Join(names, SLASH)) && Changed(before, after, Place(roots, names))
      ensures locks[token].token in tokens
    {
      var p := Place(roots, names);
      assert !Clear(p, places);
      var r :| r in places && r <= p;
      var top :| top in cleared && top != [] && top[0] in roots && r == Place(roots, top);
      PlaceOrder(roots, top, names);
      assert AllFileNames(top);
      CoverBelowBlocks(locks[token], top, names);
      NamedOrBlocking(locks, token, Join(top, SLASH), tokens);
    }
  }

  // ---------------------------------------------------------------------------
  // A UUID that occurs nowhere
  // ---------------------------------------------------------------------------

  predicate OccursAt(part: Bytes, whole: Bytes, i: int) {
    0 <= i <= |whole| - |part| && whole[i..i + |part|] == part
  }

  predicate OccursIn(part: Bytes, whole: Bytes) {
    exists i | 0 <= i <= |whole| :: OccursAt(part, whole, i)
  }

  /** Neither a name on the disk nor a lock mentions the UUID. */
  predicate Unused(tree: Tree, locks: Table, uuid: Bytes) {
    && (forall p | p in tree :: forall k | 0 <= k < |p| :: !OccursIn(uuid, p[k]))
    && (forall token | token in locks :: !OccursIn(uuid, token) && !OccursIn(uuid, locks[token].path))
  }

  lemma OccursInside(before: Bytes, part: Bytes, after: Bytes)
    ensures OccursIn(part, before + part + after)
  {
    var whole := before + part + after;
    assert OccursAt(part, whole, |before|);
  }

  lemma {:induction false} OccursInLonger(part: Bytes, whole: Bytes, longer: Bytes)
    requires OccursIn(part, whole) && whole <= longer
    ensures OccursIn(part, longer)
  {
    var i :| 0 <= i <= |whole| && OccursAt(part, whole, i);
    assert whole == longer[..|whole|];
    assert longer[i..i + |part|] == whole[i..i + |part|];
    assert OccursAt(part, longer, i);
  }

  lemma StagingNameMentions(purpose: Bytes, uuid: Bytes, name: Bytes)
    ensures OccursIn(uuid, StagingName(purpose, uuid, name))
  {
    OccursInside(STAGING_PREFIX + purpose + DASH, uuid, DASH + name);
    assert StagingName(purpose, uuid, name) == STAGING_PREFIX + purpose + DASH + uuid + (DASH + name);
  }

  lemma OccursInEnd(part: Bytes, before: Bytes, whole: Bytes)
    requires OccursIn(part, whole)
    ensures OccursIn(part, before + whole)
  {
    var i :| 0 <= i <= |whole| && OccursAt(part, whole, i);
    assert (before + whole)[|before| + i..|before| + i + |part|] == whole[i..i + |part|];
    assert OccursAt(part, before + whole, |before| + i);
  }

  /** A key whose last name mentions an unused UUID is no prefix of any lock's path. */
  lemma FreshKey(tree: Tree, locks: Table, uuid: Bytes, front: seq<Bytes>, name: Bytes, token: Bytes)
    requires Unused(tree, locks, uuid) && OccursIn(uuid, name) && front != [] && token in locks
    ensures !(Join(front + [name], SLASH) <= locks[token].path)
  {
    hide OccursIn;
    var key := Join(front + [name], SLASH);
    JoinAppend(front, [name], SLASH);
    OccursInEnd(uuid, Join(front, SLASH) + [SLASH], name);
    if key <= locks[token].path { OccursInLonger(uuid, key, locks[token].path); }
  }

  lemma CoversSibling(lock: LockEntry, front: seq<Bytes>, name: Bytes, newcomer: Bytes)
    requires front != [] && SLASH !in newcomer
    requires Blocks(lock, Join(front + [newcomer], SLASH)) && !(Join(front + [newcomer], SLASH) <= lock.path)
    ensures lock.Covers(Join(front + [name], SLASH))
  {
    var parent, key := Join(front, SLASH), Join(front + [newcomer], SLASH);
    JoinAppend(front, [newcomer], SLASH);
    JoinAppend(front, [name], SLASH);
    assert key == parent + [SLASH] + newcomer;
    assert forall i | |parent| < i < |key| :: key[i] == newcomer[i - |parent| - 1];
    assert lock.path == key[..|lock.path|] == parent[..|lock.path|];
  }

  /** A lock that covers a fresh sibling of some names covers those names as well. */
  lemma FreshSiblingUnblocked(tree: Tree, locks: Table, uuid: Bytes, front: seq<Bytes>, name: Bytes, newcomer: Bytes,
                              tokens: seq<Bytes>)
    requires Unused(tree, locks, uuid) && OccursIn(uuid, newcomer) && front != [] && SLASH !in newcomer
    requires Unblocked(locks, front + [name], tokens)
    ensures Unblocked(locks, front + [newcomer], tokens)
  {
    var key, sibling := Join(front + [name], SLASH), Join(front + [newcomer], SLASH);
    forall token | token in locks && Blocks(locks[token], sibling) ensures locks[token].token in tokens {
      FreshKey(tree, locks, uuid, front, newcomer, token);
      CoversSibling(locks[token], front, name, newcomer);
      NamedOrBlocking(locks, token, key, tokens);
    }
  }

  // ---------------------------------------------------------------------------
  // Homes
  // ---------------------------------------------------------------------------

  /** The root key of every user's home. */
  const HOME: Bytes := [0x7E]

  lemma StayApart(a: Path, b: Path, p: Path, q: Path)
    requires Incomparable(a, b) && a <= p && b <= q
    ensures Incomparable(p, q)
  {
    assert p[..|a|] == a && q[..|b|] == b;
  }

  /**
   Two users' homes are different folders under the same key. A lock one of them takes in his
   home blocks, in the home of the other, exactly the paths it would block in his own.
   */
  lemma HomeLocksCollide(mine: Roots, theirs: Roots, lock: LockEntry, locked: seq<Bytes>, names: seq<Bytes>)
    requires HOME in mine && HOME in theirs && Incomparable(mine[HOME], theirs[HOME])
    requires AllFileNames(locked) && locked != [] && locked[0] == HOME && lock.path == Join(locked, SLASH)
    requires AllFileNames(names) && names != [] && names[0] == HOME
    ensures Incomparable(Place(mine, locked), Place(theirs, names))
    ensures Blocks(lock, Join(names, SLASH)) <==> names <= locked || (lock.depthInfinity && locked <= names)
  {
    JoinOrder(locked, names);
    JoinOrder(names, locked);
    StayApart(mine[HOME], theirs[HOME], Place(mine, locked), Place(theirs, names));
  }

  // ---------------------------------------------------------------------------
  // Targets and the paths they resolve to
  // ---------------------------------------------------------------------------

  lemma OrdinaryIsPlain(names: seq<Bytes>)
    requires AllOrdinary(names)
    ensures AllPlain(names)
  {
  }

  lemma TargetNames(target: DavTarget)
    requires WellParsed(target) && target.root.Some? && target.relative != []
    ensures var names := Segments(target);
            && |names| > 1 && names[0] == target.root.value && target.relative == Join(names[1..], SLASH)
            && LockKey(target) == Join(names, SLASH) && AllPlain(names[1..]) && AllPlain(names)
  {
    var names := Segments(target);
    LockKeyIsJoin(names);
    OrdinaryIsPlain(names);
    assert Join([], SLASH) == [];
  }

  /** Without links on the way, `resolve_parent` leads to the place of the names. */
  lemma ResolvedPlace(tree: Tree, roots: Roots, target: DavTarget)
    requires SeparateRoots(roots) && ClearWay(tree, roots, target)
    requires WellParsed(target) && target.root.Some? && target.relative != []
    requires target.root.value in roots && Aim(tree, roots[target.root.value], target.relative).Success?
    ensures Segments(target) != [] && Segments(target)[0] in roots
    ensures Aim(tree, roots[target.root.value], target.relative).value == Place(roots, Segments(target))
  {
    TargetNames(target);
    var path := Place(roots, Segments(target));
    LinkFreePrefix(tree, path, |path| - 1);
    NoLinksNoAlias(tree, roots[target.root.value], Segments(target)[1..]);
  }

  /** The last component of a resolved target is an ordinary name. */
  lemma ResolvedName(tree: Tree, root: Path, target: DavTarget)
    requires WellParsed(target) && target.root.Some? && target.relative != []
    requires Aim(tree, root, target.relative).Success?
    ensures var t := Aim(tree, root, target.relative).value;
            t != [] && Ordinary(t[|t| - 1])
  {
    TargetNames(target);
    var names := Segments(target)[1..];
    AimParts(tree, root, target.relative);
    SplitJoin(names, SLASH);
    ComponentsAppendPlain(root, names);
    var joined := Components(root) + names;
    assert joined[|joined| - 1] == names[|names| - 1];
  }

  // ---------------------------------------------------------------------------
  // What a symbolic link does to the guard
  // ---------------------------------------------------------------------------

  /** The names "h", "d", "l" and "f". */
  const H: Bytes := [0x68]
  const D: Bytes := [0x64]
  const L: Bytes := [0x6C]
  const F: Bytes := [0x66]

  /** A home "h" with a folder "d" and a link "l" to it. */
  const LINKED: Tree := map[[H] := Directory, [H, D] := Directory, [H, L] := Symlink(D)]

  lemma LinkedIsWellFormed()
    ensures WellFormed(LINKED)
  {
    assert Parent([H]) == [] && Parent([H, D]) == [H] && Parent([H, L]) == [H];
  }

  lemma LinkedWalk()
    ensures Canonicalize(LINKED, [H]) == Success([H]) && Canonicalize(LINKED, [H, L]) == Success([H, D])
  {
    assert Split(D, SLASH) == [D] by { SplitJoin([D], SLASH); }
    assert [] + [H] == [H] && [H] + [L] == [H, L] && [H] + [D] == [H, D];
    assert [H, L][1..] == [L] && [L][1..] == [] && [D] + [] == [D] && [D][1..] == [];
    assert Walk(LINKED, [H], [D], MAX_LINKS - 1) == Walk(LINKED, [H, D], [], MAX_LINKS - 1) == Success([H, D]);
    assert Walk(LINKED, [H], [L], MAX_LINKS) == Walk(LINKED, [H], [D] + [], MAX_LINKS - 1);
    assert Walk(LINKED, [], [H, L], MAX_LINKS) == Walk(LINKED, [H], [L], MAX_LINKS);
    assert Walk(LINKED, [], [H], MAX_LINKS) == Walk(LINKED, [H], [], MAX_LINKS) == Success([H]);
  }

  lemma LinkedAim()
    ensures Aim(LINKED, [H], Join([L, F], SLASH)) == Success([H, D, F])
  {
    hide Walk, Split;
    LinkedWalk();
    SplitJoin([L, F], SLASH);
    assert [H] + [L, F] == [H, L, F];
    PlainComponents([H, L, F]);
    assert [H, L, F][..2] == [H, L];
    assert Join([L, F], SLASH) == [0x6C, SLASH, 0x66];
    assert [H, D] + [F] == [H, D, F];
  }

  lemma LinkedPlaces(roots: Roots)
    requires roots == map[HOME := [H]]
    ensures Place(roots, [HOME, D, F]) == [H, D, F] && Place(roots, [HOME, L, F]) == [H, L, F]
    ensures !LinkFree(LINKED, [H, L, F])
  {
    assert [HOME, D, F][1..] == [D, F] && [HOME, L, F][1..] == [L, F];
    assert [H, L, F][..2] == [H, L] && IsLink(LINKED, [H, L]);
  }

  lemma UnguardedBy(before: Tree, after: Tree, roots: Roots, locks: Table, names: seq<Bytes>, token: Bytes)
    requires names != [] && names[0] in roots && AllFileNames(names) && token in locks
    requires locks[token].Covers(Join(names, SLASH)) && Changed(before, after, Place(roots, names))
    ensures !Guarded(before, after, roots, locks, [])
  {
  }

  /**
   With a link on the way the guard fails: "~/l/f" leads to the place of "~/d/f", and a lock of
   depth 0 on that does not block it.
   */
  lemma LinkDefeatsGuard(token: Bytes)
    ensures var roots: Roots := map[HOME := [H]];
            var target := FromSegments([HOME, L, F]);
            var locks: Table := map[token := LockEntry(token, Join([HOME, D, F], SLASH), None, false, 0, 1)];
            && SeparateRoots(roots) && WellParsed(target) && WellFormed(LINKED)
            && Aim(LINKED, roots[HOME], target.relative) == Success([H, D, F])
            && Unblocked(locks, Segments(target), []) && !ClearWay(LINKED, roots, target)
            && !Guarded(LINKED, LINKED[[H, D, F] := File([])], roots, locks, [])
  {
    hide Walk, Split, Aim, Guarded;
    var roots: Roots := map[HOME := [H]];
    var names, other := [HOME, L, F], [HOME, D, F];
    var target := FromSegments(names);
    var lock := LockEntry(token, Join(other, SLASH), None, false, 0, 1);
    var locks: Table := map[token := lock];
    SegmentsOfTarget(names);
    LinkedIsWellFormed();
    LinkedAim();
    assert names[1..] == [L, F] && other[1..] == [D, F];
    JoinOrder(names, other);
    LinkedPlaces(roots);
    UnguardedBy(LINKED, LINKED[[H, D, F] := File([])], roots, locks, other, token);
  }
}
