/** The lemmas behind the handlers: locks through a step, places in a tree, and the write guard. */
module HandlerProofs {
  import opened ByteStrings
  import opened CopyEntry
  import opened DavPath
  import opened Disk
  import opened FileTree
  import opened Locks
  import opened Outcomes
  import opened SafePath
  import opened Staging
  import opened Transfer
  import opened WriteGuard
  import opened Wrappers

  // ---------------------------------------------------------------------------
  // Locks through a step
  // ---------------------------------------------------------------------------

  lemma FewerLocksAreSound(before: Table, after: Table)
    requires Sound(before) && NoNewLocks(before, after)
    ensures Sound(after)
  {
    ShrinkKeepsExclusive(before, after);
  }

  lemma NothingGone(locks: Table)
    ensures forall now: nat :: OnlyGone(locks, locks, now, {})
  {
  }

  lemma PurgedOnly(locks: Table, now: nat, later: nat)
    requires now <= later
    ensures OnlyGone(locks, Live(locks, now), later, {}) && NoNewLocks(locks, Live(locks, now))
  {
  }

  lemma ForgottenOnly(locks: Table, now: nat, after: nat, key: Bytes)
    requires now <= after
    ensures var left := Step(Live(locks, now), Timed(Call.RemoveUnder(key), after)).table;
            OnlyGone(locks, left, after, {key}) && NoNewLocks(locks, left) && NoneUnder(left, key)
  {
  }

  lemma LiveLater(locks: Table, first: nat, second: nat, key: Bytes, tokens: seq<Bytes>)
    requires first <= second
    ensures Live(Live(locks, first), second) == Live(locks, second)
    ensures Blocking(Live(locks, first), key, tokens) == {} ==> Blocking(Live(locks, second), key, tokens) == {}
  {
    assert Blocking(Live(locks, second), key, tokens) <= Blocking(Live(locks, first), key, tokens);
  }

  /** What a purge before, and a clean-up after, take away together. */
  lemma GoneFurther(before: Table, middle: Table, after: Table, now: nat, keys: set<Bytes>)
    requires OnlyGone(before, middle, now, {}) && OnlyGone(middle, after, now, keys)
    ensures OnlyGone(before, after, now, keys)
  {
  }

  lemma GoneLater(before: Table, after: Table, now: nat, later: nat, keys: set<Bytes>)
    requires OnlyGone(before, after, now, keys) && now <= later
    ensures OnlyGone(before, after, later, keys)
  {
  }

  lemma FreshToken(tree: Tree, locks: Table, uuid: Bytes)
    requires Unused(tree, locks, uuid)
    ensures TOKEN_PREFIX + uuid !in locks
  {
    OccursInside(TOKEN_PREFIX, uuid, []);
    assert TOKEN_PREFIX + uuid + [] == TOKEN_PREFIX + uuid;
  }

  /** A refresh keeps the table sound and touches one lock, if any. */
  lemma RenewalIsSound(before: Table, after: Table, event: Timed, later: nat)
    requires Sound(before) && event.call.Refresh? && after == Step(before, event).table && later >= event.at
    ensures Sound(after)
    ensures event.call.token in before ==> before[event.call.token].token == event.call.token
    ensures OnlyGone(before - {event.call.token}, after - {event.call.token}, later, {})
    ensures Step(before, event).answer.lock.None? ==> OnlyGone(before, after, later, {})
  {
    ShrinkKeepsExclusive(before, after);
  }

  /** Checking at one moment and filing at a later one keeps the table sound and every other live lock. */
  lemma GrantIsSound(locks: Table, checkedAt: nat, storedAt: nat, lock: LockEntry)
    requires Sound(locks) && Blocking(Live(locks, checkedAt), lock.path, []) == {} && checkedAt <= storedAt
    requires lock.token !in locks
    ensures var after := Step(Live(locks, checkedAt), Timed(Call.Insert(lock), storedAt)).table;
            Sound(after) && OnlyGone(locks, after - {lock.token}, storedAt, {})
    ensures locks - {lock.token} == locks
  {
    var checked := Live(locks, checkedAt);
    var kept := Live(checked, storedAt);
    ShrinkKeepsExclusive(locks, kept);
    assert Blocking(kept, lock.path, []) <= Blocking(checked, lock.path, []);
    InsertKeepsExclusive(kept, lock);
  }

  // ---------------------------------------------------------------------------
  // Names and places
  // ---------------------------------------------------------------------------

  lemma NoNameNoPath(tree: Tree, view: View, target: DavTarget)
    ensures target.root.None? || target.relative == [] ==>
              && AimedPath(tree, view, target) == WritePath(tree, view, target) == None
              && EntryRefusal(tree, view, target) == Some(Forbidden)
  {
  }

  lemma NoNameNoRead(tree: Tree, view: View, source: DavTarget)
    ensures source.root.None? ==> ReadPath(tree, view, source) == None
  {
  }

  /** The two differ by the check for a symbolic link. */
  lemma AimedOrWritten(tree: Tree, view: View, target: DavTarget)
    ensures var path := AimedPath(tree, view, target);
            WritePath(tree, view, target) == if path.Some? && IsLink(tree, path.value) then None else path
  {
  }

  lemma WrittenName(tree: Tree, view: View, target: DavTarget)
    requires WellParsed(target) && AimedPath(tree, view, target).Some?
    ensures var path := AimedPath(tree, view, target).value;
            path != [] && Ordinary(path[|path| - 1])
  {
    ResolvedName(tree, view.writable[target.root.value], target);
  }

  /** The directory a target is aimed into is no link, so that `is_dir` on it speaks of itself. */
  lemma AimedInto(tree: Tree, view: View, target: DavTarget)
    requires WellFormed(tree) && AimedPath(tree, view, target).Some?
    ensures var path := AimedPath(tree, view, target).value;
            path != [] && (FollowedToDir(tree, Parent(path)) <==> IsDir(tree, Parent(path)))
  {
    ResolveParentIsContained(tree, view.writable[target.root.value], target.relative);
  }

  lemma PlaceRefusedIff(tree: Tree, view: View, target: DavTarget)
    ensures PlaceRefusal(tree, view, target, false) == None <==> Fillable(tree, WritePath(tree, view, target))
    ensures PlaceRefusal(tree, view, target, true) == None <==>
              Fillable(tree, WritePath(tree, view, target)) && WritePath(tree, view, target).value !in tree
  {
  }

  lemma ReadEntry(tree: Tree, view: View, target: DavTarget)
    requires WellFormed(tree) && ReadPath(tree, view, target).Some?
    ensures var path := ReadPath(tree, view, target).value; (path == [] || path in tree) && !IsLink(tree, path)
  {
    ResolveIsContained(tree, view.readable[target.root.value], target.relative);
  }

  lemma PartedDecides(devices: Devices, tree: Tree, view: View, source: DavTarget, destination: DavTarget,
                      overwrite: bool, move: bool, from: Path, to: Path)
    requires Parted(tree, view, source, destination, move, from, to)
    ensures Possible(devices, tree, view, source, destination, overwrite, move) <==>
            && !(from <= to) && !IsLink(tree, to) && (overwrite || to !in tree)
            && (Renames(devices, from, to, move) || Copyable(tree, from))
    ensures DevoursItself(devices, tree, view, source, destination, move) && !IsLink(tree, to) <==>
            move && !Renames(devices, from, to, move) && to <= from && !IsLink(tree, to)
    ensures (from == [] || from in tree) && !IsLink(tree, from) && (move ==> from != [])
    ensures to != [] && from != to && IsDir(tree, Parent(to))
    ensures Some(to) == AimedPath(tree, view, destination) && (move ==> Some(from) == WritePath(tree, view, source))
  {
    AimedOrWritten(tree, view, destination);
  }

  // ---------------------------------------------------------------------------
  // Staging
  // ---------------------------------------------------------------------------

  function StagedName(target: Path, purpose: Bytes, uuid: Bytes): Bytes
    requires target != []
  {
    var staging := StagingPath(target, purpose, uuid);
    staging[|staging| - 1]
  }

  lemma StagedBeside(path: Path, purpose: Bytes, uuid: Bytes)
    requires path != []
    ensures StagingPath(path, purpose, uuid) == Parent(path) + [StagedName(path, purpose, uuid)]
  {
  }

  lemma StagingFits(tree: Tree, locks: Table, target: Path, purpose: Bytes, uuid: Bytes)
    requires Unused(tree, locks, uuid) && target != [] && Ordinary(target[|target| - 1])
    ensures var staging := StagingPath(target, purpose, uuid);
            && staging != [] && staging !in tree && staging != target
            && Parent(staging) == Parent(target) && Incomparable(staging, target)
            && OccursIn(uuid, StagedName(target, purpose, uuid))
  {
    var staging := StagingPath(target, purpose, uuid);
    var name := target[|target| - 1];
    StagingNameMentions(purpose, uuid, if Utf8.Valid(name) then name else ENTRY);
    assert |staging[|staging| - 1]| > |target[|target| - 1]|;
    assert Parent(staging) == Parent(target);
  }

  lemma PlanFits(tree: Tree, locks: Table, source: Path, target: Path, purpose: Bytes, uuid: Bytes)
    requires WellFormed(tree) && Unused(tree, locks, uuid) && target != [] && Ordinary(target[|target| - 1])
    requires (source == [] || source in tree) && source != target
    ensures EndsFit(tree, source, target, StagingPath(target, purpose, uuid))
    ensures StagingPath(target, purpose, uuid) !in tree
  {
    StagingFits(tree, locks, target, purpose, uuid);
  }

  /**
   The self and descendant check, by what `is_dir` answered: it lets a staging path in the
   source through exactly when the source is a directory, the destination lies in it, and
   `is_dir` did not say so.
   */
  lemma StagingInsideIff(tree: Tree, source: Path, destination: Path, staging: Path, directory: bool)
    requires WellFormed(tree) && (source == [] || source in tree)
    requires destination != [] && IsDir(tree, Parent(destination))
    requires staging != [] && staging !in tree && staging != destination && Parent(staging) == Parent(destination)
    requires source != destination && !(directory && source <= destination)
    ensures source <= staging <==> IsDir(tree, source) && source <= destination && !directory
  {
    StagingIsOutside(tree, source, destination, staging);
    if source <= destination {
      AncestorIsDir(tree, source, Parent(destination));
    }
  }

  /** A folder, a name in it, and an `is_dir` that fails: the copy is staged in its own source. */
  lemma CopyRunsIntoItself(before: Moment, after: Moment, uuid: Bytes)
    requires before.tree == map[[D] := Directory] && before.faults < after.faults
    ensures var from, to := [D], [D, F];
            LetThrough(before, after, from, to, true, Seen(false, false)) && from <= StagingPath(to, STAGE, uuid)
  {
    StagedBeside([D, F], STAGE, uuid);
    assert Parent([D, F]) == [D];
  }

  /** Doing nothing is guarded. */
  lemma Idle(tree: Tree, roots: Roots, tokens: seq<Bytes>)
    ensures forall locks: Table :: Guarded(tree, tree, roots, locks, tokens)
  {
  }

  lemma PutOutside(tree: Tree, p: Path, node: Node)
    ensures SameOutside(tree, tree[p := node], {p})
  {
    forall q | Clear(q, {p}) ensures q != p {
      assert p in {p} && !(p <= q);
    }
  }

  lemma StillCarriedOut(devices: Devices, before: Moment, middle: Moment, after: Moment, from: Path, to: Path,
                        staging: Path, move: bool, swapped: bool, status: Status, seen: Seen)
    requires CarriedOut(devices, before, middle, from, to, staging, move, swapped, status, seen)
    requires after.tree == middle.tree && after.faults == middle.faults && after.log == middle.log
    ensures CarriedOut(devices, before, after, from, to, staging, move, swapped, status, seen)
  {
  }

  lemma SuccessSays(devices: Devices, before: Moment, after: Moment, from: Path, to: Path, staging: Path, move: bool,
                    swapped: bool, status: Status, seen: Seen)
    requires CarriedOut(devices, before, after, from, to, staging, move, swapped, status, seen) && to != []
    ensures move ==> from != []
    ensures Succeeds(status) ==> !(from <= to) && (Renames(devices, from, to, move) || Copyable(before.tree, from))
  {
  }

  lemma BroughtFits(devices: Devices, before: Moment, after: Moment, from: Path, to: Path, staging: Path, move: bool,
                    swapped: bool)
    requires Brought(devices, before, after, from, to, staging, move, swapped) && to != []
    ensures move ==> from != []
    ensures Fits(before.tree, after.tree, from, to, staging, move, Renames(devices, from, to, move), swapped)
  {
  }

  /** What Transfer says of the old destination, from the start of the step. */
  lemma ReplacedLastInStep(before: Moment, middle: Moment, after: Moment, from: Path, to: Path, staging: Path,
                           renamed: bool)
    requires OnlyLooked(before.log, before.faults, middle.log, middle.faults) && middle.tree == before.tree
    requires ReplacedLast(before.tree, after.tree, middle.log, after.log, middle.faults, after.faults, from, to,
                          staging, renamed)
    ensures KeptUntilSwap(before, after, from, to, staging, renamed)
  {
    hide Untouched, Remembers;
    if !Untouched(before.tree, after.tree, from, staging, renamed) {
      StillOnlyLooked(before.log, before.faults, middle.log, middle.faults, after.log);
      assert SwapFailed(after.log, middle.faults, after.faults, staging, to);
    }
  }

  /** An old destination is lost, or loses anything, only if a call of the swap was the first to fail. */
  lemma DestinationLostOnlyInSwap(devices: Devices, before: Moment, after: Moment, from: Path, to: Path, staging: Path,
                                  move: bool, swapped: bool, status: Status, seen: Seen)
    requires CarriedOut(devices, before, after, from, to, staging, move, swapped, status, seen) && !swapped
    requires Incomparable(from, to) && Sub(after.tree, to) != Sub(before.tree, to)
    ensures Renames(devices, from, to, move) || Copyable(before.tree, from)
    ensures exists first :: OnlyLooked(before.log, before.faults, after.log, first)
                            && SwapFailed(after.log, first, after.faults, staging, to)
  {
    hide Fits, Tidy, Untouched, OnlyLooked, SwapFailed, Copyable;
    if Untouched(before.tree, after.tree, from, staging, Renames(devices, from, to, move)) {
      UntouchedDestination(before.tree, after.tree, from, to, staging, Renames(devices, from, to, move));
    }
  }

  lemma StillGuarded(before: Moment, middle: Moment, after: Moment, view: View, targets: set<DavTarget>,
                     tokens: seq<Bytes>, checkedAt: nat)
    requires GuardedStep(before, middle, view, targets, tokens, checkedAt) && after.tree == middle.tree
    ensures GuardedStep(before, after, view, targets, tokens, checkedAt)
  {
  }

  lemma LetThroughSays(before: Moment, after: Moment, from: Path, to: Path, overwrite: bool, seen: Seen)
    requires LetThrough(before, after, from, to, overwrite, seen)
    ensures PlaceSeen(before, after, to, seen) && (seen.there ==> overwrite)
    ensures Calm(before, after) ==> !(IsDir(before.tree, from) && from <= to) && !IsLink(before.tree, to)
  {
  }

  /** Further failures make no answer worse. */
  lemma StillLetThrough(before: Moment, middle: Moment, after: Moment, from: Path, to: Path, overwrite: bool,
                        seen: Seen)
    requires LetThrough(before, middle, from, to, overwrite, seen) && before.faults <= middle.faults <= after.faults
    ensures LetThrough(before, after, from, to, overwrite, seen)
  {
  }

  /** A COPY or MOVE that was refused, put together. */
  lemma RefusedEnds(devices: Devices, before: Moment, after: Moment, view: View, source: DavTarget,
                    destination: DavTarget, tokens: seq<Bytes>, overwrite: bool, move: bool, uuid: Bytes,
                    status: Status, seen: Seen, checkedAt: nat)
    requires Stepped(before, after, checkedAt) && after.tree == before.tree && !Succeeds(status)
    requires OnlyGone(before.locks, after.locks, after.clock, {})
    requires var live := Live(before.locks, checkedAt);
             var hindered := Hindered(live, LockKey(source), LockKey(destination), tokens, move);
             && (status == Locked ==> hindered)
             && (Calm(before, after) ==>
                   && (!Possible(devices, before.tree, view, source, destination, overwrite, move) || hindered)
                   && TransferAnswered(before.tree, view, source, destination, hindered, overwrite, move, status)
                   && TurnedAway(before.tree, view, source, destination, hindered, overwrite, move))
    ensures TransferOutcome(devices, before, after, view, source, destination, tokens, overwrite, move, uuid, status,
                            Refused, seen, checkedAt)
  {
    hide Possible, DevoursItself, Hindered, Guarded, SeparateRoots, ClearWay, OnlyGone, Live, LockKey,
      TransferAnswered, TurnedAway;
    Idle(before.tree, view.writable, tokens);
    assert ForgottenKeys(source, destination, move, status) == {};
  }

  /** One that was attempted. */
  lemma AttemptEnds(devices: Devices, before: Moment, after: Moment, view: View, source: DavTarget,
                    destination: DavTarget, tokens: seq<Bytes>, overwrite: bool, move: bool, uuid: Bytes,
                    status: Status, from: Path, to: Path, swapped: bool, seen: Seen, checkedAt: nat)
    requires Stepped(before, after, checkedAt) && status != Locked && to != [] && (move ==> from != [])
    requires GuardedStep(before, after, view, if move then {source, destination} else {destination}, tokens, checkedAt)
    requires OnlyGone(before.locks, after.locks, after.clock, ForgottenKeys(source, destination, move, status))
    requires forall key | key in ForgottenKeys(source, destination, move, status) :: NoneUnder(after.locks, key)
    requires !Hindered(Live(before.locks, checkedAt), LockKey(source), LockKey(destination), tokens, move)
    requires Parted(before.tree, view, source, destination, move, from, to)
    requires LetThrough(before, after, from, to, overwrite, seen) && StagingPath(to, STAGE, uuid) !in before.tree
    requires CarriedOut(devices, before, after, from, to, StagingPath(to, STAGE, uuid), move, swapped, status, seen)
    requires Calm(before, after) && !(from <= to) && !(move && !Renames(devices, from, to, move) && to <= from) ==>
               (Renames(devices, from, to, move) || Copyable(before.tree, from) ==> Succeeds(status))
    requires Calm(before, after) ==>
               EndsRefusal(before.tree, view, source, destination, move) == None && (overwrite || to !in before.tree)
    ensures TransferOutcome(devices, before, after, view, source, destination, tokens, overwrite, move, uuid, status,
                            Attempted(from, to, StagingPath(to, STAGE, uuid), swapped), seen, checkedAt)
  {
    hide Parted, Possible, DevoursItself, Hindered, GuardedStep, OnlyGone, NoneUnder, LetThrough, CarriedOut, Copyable,
      Live, LockKey, StagingPath, EndsRefusal, AimedPath, WritePath;
    AimedOrWritten(before.tree, view, destination);
    PartedDecides(devices, before.tree, view, source, destination, overwrite, move, from, to);
    LetThroughSays(before, after, from, to, overwrite, seen);
    SuccessSays(devices, before, after, from, to, StagingPath(to, STAGE, uuid), move, swapped, status, seen);
  }

  // ---------------------------------------------------------------------------
  // LOCK on what is there
  // ---------------------------------------------------------------------------

  /** Unless there is a link, the empty file LOCK creates is at the place of the target. */
  lemma LockedInPlace(before: Moment, after: Moment, path: Path, key: Bytes, owner: Option<Bytes>,
                      depthInfinity: bool, uuid: Bytes, status: Status, seen: Seen, lock: LockEntry)
    requires NewLock(before, after, Some(path), key, owner, depthInfinity, uuid, status, seen, lock)
    requires path != [] && !IsLink(before.tree, path)
    ensures after.tree == if seen.there then before.tree else Emptied(before.tree, path)
    ensures seen.there ==> path in before.tree
  {
    if !seen.there {
      var end :|
        OpensAt(before.tree, path, end) && CanOpen(before.tree, end) && after.tree == Emptied(before.tree, end);
      OpensThere(before.tree, path, end);
    }
  }

  /** A lock granted on a file empties it exactly when `exists` on that file was the last call to fail. */
  lemma LockEmptiesIff(before: Moment, after: Moment, path: Path, key: Bytes, owner: Option<Bytes>,
                       depthInfinity: bool, uuid: Bytes, status: Status, seen: Seen, lock: LockEntry)
    requires NewLock(before, after, Some(path), key, owner, depthInfinity, uuid, status, seen, lock)
    requires path != [] && path in before.tree && before.tree[path].File?
    ensures after.tree == if FailedAt(before, after, Looking(path)) then before.tree[path := File([])] else before.tree
    ensures status == Created <==> FailedAt(before, after, Looking(path))
  {
    LockedInPlace(before, after, path, key, owner, depthInfinity, uuid, status, seen, lock);
  }

  /** A file, and an `exists` that fails: the lock is granted and the content is gone. */
  lemma LockCanEmpty(before: Moment, after: Moment, uuid: Bytes, content: Bytes)
    requires before.tree == map[[F] := File(content)] && after.tree == map[[F] := File([])]
    requires before.locks == map[] && FailedAt(before, after, Looking([F]))
    ensures var lock := LockEntry(TOKEN_PREFIX + uuid, F, None, false, 0, 1);
            NewLock(before, after, Some([F]), F, None, false, uuid, Created, Seen(false, false), lock)
  {
    OpensThere(before.tree, [F], [F]);
    assert Parent([F]) == [];
    assert OpensAt(before.tree, [F], [F]) && CanOpen(before.tree, [F]) && after.tree == Emptied(before.tree, [F]);
  }

  // ---------------------------------------------------------------------------
  // The write guard
  // ---------------------------------------------------------------------------

  lemma SiblingPlace(roots: Roots, names: seq<Bytes>, newcomer: Bytes)
    requires |names| > 1 && names[0] in roots
    ensures Place(roots, names) != []
    ensures Place(roots, names[..|names| - 1] + [newcomer]) == Parent(Place(roots, names)) + [newcomer]
  {
    var front := names[..|names| - 1];
    assert names[1..] == front[1..] + [names[|names| - 1]];
    assert (front + [newcomer])[1..] == front[1..] + [newcomer];
  }

  /** The names of a target with a clear way, and of an entry staged beside it. */
  lemma NamesOf(tree: Tree, view: View, target: DavTarget, purpose: Bytes, uuid: Bytes)
    requires SeparateRoots(view.writable) && ClearWay(tree, view.writable, target)
    requires WellParsed(target) && AimedPath(tree, view, target).Some?
    ensures var names, path := Segments(target), AimedPath(tree, view, target).value;
            && |names| > 1 && names[0] in view.writable && LockKey(target) == Join(names, SLASH)
            && path == Place(view.writable, names) && path != []
            && var sibling := names[..|names| - 1] + [StagedName(path, purpose, uuid)];
               Place(view.writable, sibling) == StagingPath(path, purpose, uuid)
  {
    hide SeparateRoots, ClearWay, Aim, Segments, LockKey, StagingPath, AllPlain;
    TargetNames(target);
    ResolvedPlace(tree, view.writable, target);
    var names, path := Segments(target), AimedPath(tree, view, target).value;
    SiblingPlace(view.writable, names, StagedName(path, purpose, uuid));
    StagedBeside(path, purpose, uuid);
  }

  /** A lock that covers an entry staged beside a target covers the target. */
  lemma StagedUnblocked(tree: Tree, locks: Table, now: nat, names: seq<Bytes>, tokens: seq<Bytes>, uuid: Bytes,
                        newcomer: Bytes)
    requires Unused(tree, locks, uuid) && OccursIn(uuid, newcomer) && |names| > 1
    requires Unblocked(Live(locks, now), names, tokens)
    ensures var sibling := names[..|names| - 1] + [newcomer];
            AllFileNames(sibling) ==> Unblocked(Live(locks, now), sibling, tokens)
  {
    var front, last := names[..|names| - 1], names[|names| - 1];
    assert front + [last] == names;
    if AllFileNames(front + [newcomer]) {
      assert (front + [newcomer])[|front|] == newcomer;
      FreshSiblingUnblocked(tree, Live(locks, now), uuid, front, last, newcomer, tokens);
    }
  }

  /** A handler that was let through for one target, and changed nothing but that place. */
  lemma OnePlaceGuarded(before: Tree, after: Tree, view: View, live: Table, tokens: seq<Bytes>, target: DavTarget)
    requires WellParsed(target) && AimedPath(before, view, target).Some?
    requires Blocking(live, LockKey(target), tokens) == {}
    requires SameOutside(before, after, {AimedPath(before, view, target).value})
    ensures SeparateRoots(view.writable) && ClearWay(before, view.writable, target) ==>
              Guarded(before, after, view.writable, live, tokens)
  {
    hide SeparateRoots, ClearWay, SameOutside, Guarded, Aim, Segments, LockKey, Blocking;
    if SeparateRoots(view.writable) && ClearWay(before, view.writable, target) {
      NamesOf(before, view, target, [], []);
      GuardHolds(before, after, view.writable, live, tokens, {Segments(target)},
                 {AimedPath(before, view, target).value});
    }
  }

  lemma OutsideNothing(tree: Tree, roots: set<Path>)
    ensures SameOutside(tree, tree, roots)
  {
  }

  /** The same for the empty file of a LOCK, which is in that place if no link leads away from it. */
  lemma CreatedGuarded(before: Tree, end: Path, view: View, live: Table, tokens: seq<Bytes>, target: DavTarget)
    requires WellParsed(target) && AimedPath(before, view, target).Some?
    requires Blocking(live, LockKey(target), tokens) == {}
    requires OpensAt(before, AimedPath(before, view, target).value, end)
    ensures SeparateRoots(view.writable) && ClearWay(before, view.writable, target) ==>
              Guarded(before, Emptied(before, end), view.writable, live, tokens)
  {
    hide SeparateRoots, SameOutside, Guarded, Aim, Segments, LockKey, Blocking, OpensAt;
    if SeparateRoots(view.writable) && ClearWay(before, view.writable, target) {
      var path := AimedPath(before, view, target).value;
      NamesOf(before, view, target, [], []);
      assert path[..|path|] == path;
      OpensThere(before, path, end);
      PutOutside(before, path, File([]));
      OutsideNothing(before, {path});
      OnePlaceGuarded(before, Emptied(before, end), view, live, tokens, target);
    }
  }

  /** The same for one target and its staging entry. */
  lemma StagedPlaceGuarded(before: Tree, after: Tree, view: View, locks: Table, now: nat, tokens: seq<Bytes>,
                           target: DavTarget, purpose: Bytes, uuid: Bytes)
    requires WellParsed(target) && AimedPath(before, view, target).Some? && AimedPath(before, view, target).value != []
    requires Unused(before, locks, uuid) && Blocking(Live(locks, now), LockKey(target), tokens) == {}
    requires var path := AimedPath(before, view, target).value;
             SameOutside(before, after, {StagingPath(path, purpose, uuid), path})
    ensures SeparateRoots(view.writable) && ClearWay(before, view.writable, target) ==>
              Guarded(before, after, view.writable, Live(locks, now), tokens)
  {
    hide SeparateRoots, ClearWay, SameOutside, Guarded, Aim, Segments, LockKey, Blocking, Live, Unused, OccursIn,
      StagingPath, Followed;
    if SeparateRoots(view.writable) && ClearWay(before, view.writable, target) {
      var names, path := Segments(target), AimedPath(before, view, target).value;
      WrittenName(before, view, target);
      StagingFits(before, locks, path, purpose, uuid);
      NamesOf(before, view, target, purpose, uuid);
      StagedUnblocked(before, locks, now, names, tokens, uuid, StagedName(path, purpose, uuid));
      var sibling := names[..|names| - 1] + [StagedName(path, purpose, uuid)];
      GuardHolds(before, after, view.writable, Live(locks, now), tokens, {names, sibling},
                 {StagingPath(path, purpose, uuid), path});
    }
  }

  /** The same for both ends of a MOVE and its staging entry. */
  lemma TwoPlacesGuarded(before: Tree, after: Tree, view: View, locks: Table, now: nat, tokens: seq<Bytes>,
                         source: DavTarget, destination: DavTarget, purpose: Bytes, uuid: Bytes)
    requires WellParsed(source) && AimedPath(before, view, source).Some?
    requires WellParsed(destination) && AimedPath(before, view, destination).Some?
    requires AimedPath(before, view, destination).value != [] && Unused(before, locks, uuid)
    requires !Hindered(Live(locks, now), LockKey(source), LockKey(destination), tokens, true)
    requires var to := AimedPath(before, view, destination).value;
             SameOutside(before, after, {AimedPath(before, view, source).value, StagingPath(to, purpose, uuid), to})
    ensures && SeparateRoots(view.writable) && ClearWay(before, view.writable, source)
            && ClearWay(before, view.writable, destination) ==>
              Guarded(before, after, view.writable, Live(locks, now), tokens)
  {
    hide SeparateRoots, ClearWay, SameOutside, Guarded, Aim, Segments, LockKey, Blocking, Live, Unused, OccursIn,
      StagingPath, WellParsed, Place, Followed;
    if SeparateRoots(view.writable) && ClearWay(before, view.writable, source)
       && ClearWay(before, view.writable, destination) {
      var names, to := Segments(destination), AimedPath(before, view, destination).value;
      WrittenName(before, view, destination);
      StagingFits(before, locks, to, purpose, uuid);
      NamesOf(before, view, source, purpose, uuid);
      NamesOf(before, view, destination, purpose, uuid);
      StagedUnblocked(before, locks, now, names, tokens, uuid, StagedName(to, purpose, uuid));
      var sibling := names[..|names| - 1] + [StagedName(to, purpose, uuid)];
      GuardHolds(before, after, view.writable, Live(locks, now), tokens, {Segments(source), names, sibling},
                 {AimedPath(before, view, source).value, StagingPath(to, purpose, uuid), to});
    }
  }

  /** Whatever point a COPY or MOVE got to, it stayed within the locks it was let through by. */
  lemma TransferGuarded(before: Tree, after: Tree, view: View, locks: Table, now: nat, tokens: seq<Bytes>,
                        source: DavTarget, destination: DavTarget, move: bool, from: Path, to: Path, uuid: Bytes,
                        renamed: bool, swapped: bool)
    requires WellParsed(source) && WellParsed(destination) && Unused(before, locks, uuid)
    requires to != [] && Some(to) == AimedPath(before, view, destination)
    requires move ==> Some(from) == AimedPath(before, view, source)
    requires !Hindered(Live(locks, now), LockKey(source), LockKey(destination), tokens, move)
    requires Fits(before, after, from, to, StagingPath(to, STAGE, uuid), move, renamed, swapped)
    ensures && SeparateRoots(view.writable) && (move ==> ClearWay(before, view.writable, source))
            && ClearWay(before, view.writable, destination) ==>
              Guarded(before, after, view.writable, Live(locks, now), tokens)
  {
    hide SeparateRoots, ClearWay, Guarded, Aim, Unused, SameOutside, StagingPath;
    if move {
      TwoPlacesGuarded(before, after, view, locks, now, tokens, source, destination, STAGE, uuid);
    } else {
      StagedPlaceGuarded(before, after, view, locks, now, tokens, destination, STAGE, uuid);
    }
  }
}
