/** What every run of the server keeps: the write guard, exclusivity, and the life of a lock. */
module History {
  import opened ByteStrings
  import opened CopyEntry
  import opened DavPath
  import opened Disk
  import opened FileTree
  import opened HandlerProofs
  import opened Locks
  import opened Outcomes
  import opened SafePath
  import opened Serving
  import opened Staging
  import opened Transfer
  import opened Upload
  import opened WriteGuard
  import opened Wrappers

  ghost predicate AllHappened(devices: Devices, limit: nat, history: seq<Record>) {
    forall i | 0 <= i < |history| :: Happened(devices, limit, history[i])
  }

  // ---------------------------------------------------------------------------
  // Symbolic links stay out
  // ---------------------------------------------------------------------------

  lemma OneFileMore(tree: Tree, path: Path, content: Bytes)
    ensures FewerLinks(tree, tree[path := File(content)])
  {
  }

  lemma PutAddsNoLinks(before: Moment, after: Moment, path: Option<Path>, uuid: Bytes)
    requires LeftAsItWas(before, after, path, uuid)
    ensures FewerLinks(before.tree, after.tree)
  {
    if after.tree != before.tree {
      var staging := StagingPath(path.value, UPLOAD, uuid);
      var content :| after.tree == before.tree[staging := File(content)];
      OneFileMore(before.tree, staging, content);
    }
  }

  lemma LockAddsNoLinks(before: Moment, after: Moment, path: Option<Path>, key: Bytes, owner: Option<Bytes>,
                        depthInfinity: bool, uuid: Bytes, status: Status, seen: Seen, lock: LockEntry)
    requires NewLock(before, after, path, key, owner, depthInfinity, uuid, status, seen, lock)
    ensures FewerLinks(before.tree, after.tree)
  {
    hide OpensAt, CanOpen;
    if !seen.there {
      var end :|
        OpensAt(before.tree, path.value, end) && CanOpen(before.tree, end) && after.tree == Emptied(before.tree, end);
      OneFileMore(before.tree, end, []);
    }
  }

  /** What a MOVE takes along holds no link. */
  lemma MovedHoldsNoLink(tree: Tree, view: View, source: DavTarget)
    requires SeparateRoots(view.writable) && LinksKeptOut(tree, view.writable)
    requires WellParsed(source) && WritePath(tree, view, source).Some?
    ensures HasNoLink(Sub(tree, WritePath(tree, view, source).value))
  {
    hide Aim, Segments, LockKey, StagingPath;
    var roots := view.writable;
    NoLinksClearWay(tree, roots, source);
    AimedOrWritten(tree, view, source);
    NamesOf(tree, view, source, [], []);
    var names := Segments(source);
    var path := Place(roots, names);
    forall q | q in Sub(tree, path) ensures !IsLink(tree, path + q) {
      assert roots[names[0]] <= path + q;
    }
  }

  lemma TransferAddsNoLinks(devices: Devices, before: Moment, after: Moment, view: View, source: DavTarget,
                            destination: DavTarget, move: bool, from: Path, to: Path, staging: Path, swapped: bool,
                            status: Status, seen: Seen)
    requires SeparateRoots(view.writable) && LinksKeptOut(before.tree, view.writable) && WellParsed(source)
    requires Parted(before.tree, view, source, destination, move, from, to)
    requires CarriedOut(devices, before, after, from, to, staging, move, swapped, status, seen)
    ensures FewerLinks(before.tree, after.tree)
  {
    hide Fits, EndsFit, WellParsed, AimedPath, WritePath, ReadPath, SeparateRoots, LinksKeptOut;
    if move { MovedHoldsNoLink(before.tree, view, source); }
  }

  /** A step of a user whose folders hold no symbolic link makes none. */
  lemma StepAddsNoLinks(devices: Devices, limit: nat, record: Record)
    requires Happened(devices, limit, record)
    requires SeparateRoots(record.request.view.writable)
    requires LinksKeptOut(record.before.tree, record.request.view.writable)
    ensures FewerLinks(record.before.tree, record.after.tree)
  {
    hide SeparateRoots, LinksKeptOut, WellParsed, Parted, CarriedOut, LetThrough, GuardedStep, OnlyGone, Unhindered,
      Unused, Sound, AimedPath, WritePath, Possible, DevoursItself, Hindered, Grantable, LeftAsItWas, NewLock, Accepted;
    var before, after := record.before, record.after;
    if FromPath(record.request.path).Success? {
      var target := FromPath(record.request.path).value;
      ParsedIsWellParsed(record.request.path);
      match record.request
      case PutRequest(view, _, _, _, _) =>
        if !(record.status in {Created, NoContent}) {
          PutAddsNoLinks(before, after, AimedPath(before.tree, view, target), record.uuid);
        }
      case LockRequest(view, _, _, hasBody, depthInfinity, owner, _) =>
        if hasBody && record.granted.Some? {
          LockAddsNoLinks(before, after, AimedPath(before.tree, view, target), LockKey(target), owner, depthInfinity,
                          record.uuid, record.status, record.seen, record.granted.value);
        }
      case TransferRequest(view, _, _, _, _, move) =>
        if DestinationOf(record.request).Success? && record.report.Attempted? {
          TransferAddsNoLinks(devices, before, after, view, target, DestinationOf(record.request).value, move,
                              record.report.source, record.report.destination, record.report.staging,
                              record.report.swapped, record.status, record.seen);
        }
      case _ =>
    }
  }

  // ---------------------------------------------------------------------------
  // The write guard over runs
  // ---------------------------------------------------------------------------

  /** Where nothing has been added, links still stay out. */
  lemma StillKeptOut(before: Tree, after: Tree, roots: Roots)
    requires LinksKeptOut(before, roots) && FewerLinks(before, after)
    ensures LinksKeptOut(after, roots)
  {
  }

  /** The folders a request may write, set up so that every place has one name. */
  ghost predicate Orderly(tree: Tree, request: Request) {
    SeparateRoots(request.view.writable) && LinksKeptOut(tree, request.view.writable)
  }

  lemma StepIsOrderly(devices: Devices, limit: nat, record: Record)
    requires Happened(devices, limit, record) && Orderly(record.before.tree, record.request)
    ensures Guarded(record.before.tree, record.after.tree, record.request.view.writable,
                    Live(record.before.locks, record.after.clock), Presented(record.request))
    ensures Exclusive(record.before.locks) && FewerLinks(record.before.tree, record.after.tree)
  {
    hide Guarded, SeparateRoots, LinksKeptOut, ClearWay, Handled;
    var roots := record.request.view.writable;
    forall target | target in Targets(record.request) ensures ClearWay(record.before.tree, roots, target) {
      NoLinksClearWay(record.before.tree, roots, target);
    }
    EveryStepIsGuarded(devices, limit, record);
    StepAddsNoLinks(devices, limit, record);
  }

  lemma OrderlyRest(history: seq<Record>, start: Tree, middle: Tree)
    requires history != [] && FewerLinks(start, middle)
    requires forall i | 0 <= i < |history| :: Orderly(start, history[i].request)
    ensures forall i | 0 <= i < |history| - 1 :: Orderly(middle, history[1..][i].request)
  {
    hide LinksKeptOut, FewerLinks;
    forall i | 0 <= i < |history| - 1 ensures Orderly(middle, history[1..][i].request) {
      assert Orderly(start, history[i + 1].request);
      StillKeptOut(start, middle, history[i + 1].request.view.writable);
    }
  }

  /**
   The write guard over a whole run, from what is known of its start: no folder a request may
   write lies in another, and none of them has a symbolic link above, at or below it. Then no
   request touches anything that a lock live throughout its step covers without naming its
   token, at no step do two locks cover one path, and no symbolic link has been made.
   */
  lemma {:induction false} RunIsGuarded(devices: Devices, limit: nat, history: seq<Record>, start: Moment, end: Moment)
    requires AllHappened(devices, limit, history) && Chained(history, start, end)
    requires forall i | 0 <= i < |history| :: Orderly(start.tree, history[i].request)
    ensures forall i | 0 <= i < |history| ::
              && Exclusive(history[i].before.locks)
              && Guarded(history[i].before.tree, history[i].after.tree, history[i].request.view.writable,
                         Live(history[i].before.locks, history[i].after.clock), Presented(history[i].request))
    ensures FewerLinks(start.tree, end.tree)
    decreases |history|
  {
    hide Happened, Guarded, Exclusive, Orderly;
    if history != [] {
      var rest, middle := history[1..], history[0].after;
      assert Happened(devices, limit, history[0]) && Orderly(start.tree, history[0].request);
      StepIsOrderly(devices, limit, history[0]);
      OrderlyRest(history, start.tree, middle.tree);
      assert forall i | 0 <= i < |rest| :: rest[i] == history[i + 1];
      RunIsGuarded(devices, limit, rest, middle, end);
      assert forall i | 0 < i < |history| :: history[i] == rest[i - 1];
    }
  }

  // ---------------------------------------------------------------------------
  // The life of a lock
  // ---------------------------------------------------------------------------

  /** What a step takes away or puts elsewhere: a deleted resource, a moved one, and one that was replaced. */
  ghost function Displaced(record: Record): set<DavTarget> {
    match FromPath(record.request.path)
    case Failure(_) => {}
    case Success(target) =>
      match record.request
      case DeleteRequest(_, _, _) => if record.status == NoContent then {target} else {}
      case TransferRequest(_, _, _, _, _, move) =>
        var destination := DestinationOf(record.request);
        if destination.Failure? then {}
        else
          (if move && Succeeds(record.status) then {target} else {})
          + (if record.status == NoContent then {destination.value} else {})
      case _ => {}
  }

  /** The target is the locked resource, or a folder it is in. */
  ghost predicate Above(target: DavTarget, locked: seq<Bytes>) {
    Segments(target) != [] && Segments(target) <= locked
  }

  /** What may end a lock on these names: it runs out, is unlocked, or its resource is deleted, moved or replaced. */
  ghost predicate Ends(record: Record, token: Bytes, locked: seq<Bytes>) {
    token in record.before.locks
    && var lock := record.before.locks[token];
       || lock.expiresAt <= record.after.clock
       || (record.request.UnlockRequest? && record.request.token == Some(token) && record.status == NoContent)
       || exists target :: target in Displaced(record) && Above(target, locked)
  }

  ghost predicate Renews(record: Record, token: Bytes) {
    && record.request.LockRequest? && !record.request.hasBody
    && record.granted.Some? && record.granted.value.token == token
  }

  lemma KeptByGone(before: Table, after: Table, now: nat, keys: set<Bytes>, token: Bytes)
    requires OnlyGone(before, after, now, keys) && token in before && before[token].expiresAt > now
    requires !exists key :: key in keys && AtOrBelow(key, before[token])
    ensures token in after && after[token] == before[token]
  {
  }

  /** The clean-up test on the key of a parsed target, on names. */
  lemma CleanedUp(path: Bytes, lock: LockEntry, locked: seq<Bytes>)
    requires FromPath(path).Success? && TakenOn(lock, locked)
    ensures AtOrBelow(LockKey(FromPath(path).value), lock) <==> Above(FromPath(path).value, locked)
  {
    var names := ParsedSegments(path);
    SegmentsOfTarget(names);
    LockKeyIsJoin(names);
    JoinNonEmpty(locked, SLASH);
    if names != [] { AtOrBelowNames(lock, locked, names); }
  }

  /** The keys of what a successful DELETE, COPY or MOVE displaces. */
  lemma KeptUnlessDisplaced(record: Record, token: Bytes, locked: seq<Bytes>, keys: set<Bytes>)
    requires token in record.before.locks && TakenOn(record.before.locks[token], locked)
    requires !exists target :: target in Displaced(record) && Above(target, locked)
    requires FromPath(record.request.path).Success?
    requires var target := FromPath(record.request.path).value;
             match record.request
             case DeleteRequest(_, _, _) => keys == if record.status == NoContent then {LockKey(target)} else {}
             case TransferRequest(_, _, _, _, _, move) =>
               var destination := DestinationOf(record.request);
               destination.Success? && keys == ForgottenKeys(target, destination.value, move, record.status)
             case _ => keys == {}
    ensures !exists key :: key in keys && AtOrBelow(key, record.before.locks[token])
  {
    hide AtOrBelow, Above, LockKey, TakenOn;
    var lock := record.before.locks[token];
    CleanedUp(record.request.path, lock, locked);
    if record.request.TransferRequest? { CleanedUp(record.request.destination.value, lock, locked); }
  }

  /** A step that does not end a lock keeps it, and changes its time only by renewing it. */
  lemma StepKeepsLock(devices: Devices, limit: nat, record: Record, token: Bytes, locked: seq<Bytes>)
    requires Happened(devices, limit, record) && token in record.before.locks && !Ends(record, token, locked)
    requires TakenOn(record.before.locks[token], locked)
    ensures token in record.after.locks && SameButTime(record.before.locks[token], record.after.locks[token])
    ensures !Renews(record, token) ==> record.after.locks[token] == record.before.locks[token]
  {
    hide OnlyGone, GuardedStep, CarriedOut, LetThrough, Possible, DevoursItself, Hindered, NoneUnder, Unused, Sound,
      AimedPath, WritePath, Blocking, Grantable, Live, LockKey, Unhindered, AtOrBelow, Above, TakenOn, ForgottenKeys;
    var before, after := record.before, record.after;
    if FromPath(record.request.path).Success? {
      var target := FromPath(record.request.path).value;
      match record.request
      case LockRequest(_, _, _, hasBody, _, _, _) =>
        if record.granted.None? {
          KeptByGone(before.locks, after.locks, after.clock, {}, token);
        } else if record.granted.value.token != token {
          var granted := record.granted.value.token;
          KeptByGone(before.locks - {granted}, after.locks - {granted}, after.clock, {}, token);
        }
      case UnlockRequest(_, _, named) =>
        if record.status == NoContent {
          KeptByGone(before.locks - {named.value}, after.locks, after.clock, {}, token);
        } else {
          KeptByGone(before.locks, after.locks, after.clock, {}, token);
        }
      case TransferRequest(_, _, _, _, _, move) =>
        if DestinationOf(record.request).Success? {
          var keys := ForgottenKeys(target, DestinationOf(record.request).value, move, record.status);
          KeptUnlessDisplaced(record, token, locked, keys);
          KeptByGone(before.locks, after.locks, after.clock, keys, token);
        }
      case DeleteRequest(_, _, _) =>
        var keys := if record.status == NoContent then {LockKey(target)} else {};
        KeptUnlessDisplaced(record, token, locked, keys);
        KeptByGone(before.locks, after.locks, after.clock, keys, token);
      case _ => KeptByGone(before.locks, after.locks, after.clock, {}, token);
    }
  }

  /** And the locks of what it displaces are gone. */
  lemma StepDropsLocks(devices: Devices, limit: nat, record: Record, token: Bytes, locked: seq<Bytes>,
                       target: DavTarget)
    requires Happened(devices, limit, record) && token in record.before.locks
    requires TakenOn(record.before.locks[token], locked) && target in Displaced(record) && Above(target, locked)
    ensures token !in record.after.locks
  {
    hide GuardedStep, CarriedOut, LetThrough, Possible, DevoursItself, Hindered, Unused, Sound, AimedPath, WritePath,
      Blocking, Grantable, Live, LockKey, Unhindered, AtOrBelow, Above, TakenOn, PutOutcome, MkcolOutcome, LockOutcome;
    var lock := record.before.locks[token];
    CleanedUp(record.request.path, lock, locked);
    if record.request.TransferRequest? { CleanedUp(record.request.destination.value, lock, locked); }
  }

  lemma TimeReflexive(lock: LockEntry)
    ensures SameButTime(lock, lock)
  {
  }

  lemma TimeTransitive(a: LockEntry, b: LockEntry, c: LockEntry)
    requires SameButTime(a, b) && SameButTime(b, c)
    ensures SameButTime(a, c)
  {
  }

  lemma StillTaken(a: LockEntry, b: LockEntry, locked: seq<Bytes>)
    requires SameButTime(a, b) && TakenOn(a, locked)
    ensures TakenOn(b, locked) && b.depthInfinity == a.depthInfinity && b.path == a.path
  {
  }

  /**
   A lock stays in the table, for the same path, depth and owner, until it runs out, is
   unlocked, or its resource is deleted, moved or replaced; nobody else's request evicts it.
   */
  lemma {:induction false} LockSurvives(devices: Devices, limit: nat, history: seq<Record>, start: Moment, end: Moment,
                                        token: Bytes, locked: seq<Bytes>)
    requires AllHappened(devices, limit, history) && Chained(history, start, end)
    requires token in start.locks && TakenOn(start.locks[token], locked)
    requires forall i | 0 <= i < |history| :: !Ends(history[i], token, locked)
    ensures token in end.locks && SameButTime(start.locks[token], end.locks[token])
    ensures (forall i | 0 <= i < |history| :: !Renews(history[i], token)) ==> end.locks[token] == start.locks[token]
    decreases |history|
  {
    hide Happened, Ends, Renews, SameButTime, TakenOn;
    if history == [] {
      TimeReflexive(start.locks[token]);
    } else {
      var rest, middle := history[1..], history[0].after;
      assert !Ends(history[0], token, locked) && Happened(devices, limit, history[0]);
      StepKeepsLock(devices, limit, history[0], token, locked);
      StillTaken(start.locks[token], middle.locks[token], locked);
      forall i | 0 <= i < |rest| ensures Happened(devices, limit, rest[i]) && !Ends(rest[i], token, locked) {
        assert rest[i] == history[i + 1];
      }
      LockSurvives(devices, limit, rest, middle, end, token, locked);
      TimeTransitive(start.locks[token], middle.locks[token], end.locks[token]);
    }
  }

  // ---------------------------------------------------------------------------
  // Other people's folders
  // ---------------------------------------------------------------------------

  /** A place in none of the folders, and none of them in it. */
  ghost predicate Elsewhere(roots: Roots, place: Path) {
    forall root | root in roots :: Incomparable(roots[root], place)
  }

  ghost predicate Within(roots: Roots, place: Path) {
    exists root :: root in roots && roots[root] <= place
  }

  lemma UnchangedElsewhere(before: Tree, after: Tree, roots: Roots, places: set<Path>, place: Path)
    requires SameOutside(before, after, places) && Elsewhere(roots, place)
    requires forall r | r in places :: Within(roots, r)
    ensures !Changed(before, after, place)
  {
    forall r | r in places ensures !(r <= place) {
      var root :| root in roots && roots[root] <= r;
      var folder := roots[root];
      assert r <= place ==> folder <= place;
    }
    assert Clear(place, places);
  }

  /** Where a target is aimed, and where it is staged, is in a folder of the user. */
  lemma AimedWithin(tree: Tree, view: View, target: DavTarget, purpose: Bytes, uuid: Bytes)
    requires SeparateRoots(view.writable) && LinksKeptOut(tree, view.writable)
    requires WellParsed(target) && AimedPath(tree, view, target).Some?
    ensures var path := AimedPath(tree, view, target).value;
            && path != [] && !IsLink(tree, path) && Within(view.writable, path)
            && Within(view.writable, StagingPath(path, purpose, uuid))
  {
    hide Aim, Segments, LockKey, StagingPath;
    var roots := view.writable;
    NoLinksClearWay(tree, roots, target);
    NamesOf(tree, view, target, purpose, uuid);
    var names, path := Segments(target), AimedPath(tree, view, target).value;
    assert path[..|path|] == path;
    assert names[0] in roots && roots[names[0]] <= path && roots[names[0]] <= StagingPath(path, purpose, uuid);
  }

  lemma PutElsewhere(before: Moment, after: Moment, view: View, target: DavTarget, content: Bytes, uuid: Bytes,
                     place: Path)
    requires SeparateRoots(view.writable) && LinksKeptOut(before.tree, view.writable) && WellParsed(target)
    requires Elsewhere(view.writable, place)
    requires var path := AimedPath(before.tree, view, target);
             || LeftAsItWas(before, after, path, uuid)
             || (path.Some? && after.tree == before.tree[path.value := File(content)])
    ensures !Changed(before.tree, after.tree, place)
  {
    hide SeparateRoots, LinksKeptOut, WellParsed, AimedPath, Elsewhere, Within, StagingPath;
    var path := AimedPath(before.tree, view, target);
    if after.tree != before.tree {
      AimedWithin(before.tree, view, target, UPLOAD, uuid);
      var staging := StagingPath(path.value, UPLOAD, uuid);
      if LeftAsItWas(before, after, path, uuid) {
        var left :| after.tree == before.tree[staging := File(left)];
        PutOutside(before.tree, staging, File(left));
        UnchangedElsewhere(before.tree, after.tree, view.writable, {staging}, place);
      } else {
        PutOutside(before.tree, path.value, File(content));
        UnchangedElsewhere(before.tree, after.tree, view.writable, {path.value}, place);
      }
    }
  }

  lemma OnePlaceElsewhere(before: Tree, after: Tree, view: View, target: DavTarget, place: Path)
    requires SeparateRoots(view.writable) && LinksKeptOut(before, view.writable) && WellParsed(target)
    requires Elsewhere(view.writable, place) && AimedPath(before, view, target).Some?
    requires SameOutside(before, after, {AimedPath(before, view, target).value})
    ensures !Changed(before, after, place)
  {
    hide SeparateRoots, LinksKeptOut, WellParsed, AimedPath, Elsewhere, Within, StagingPath, SameOutside, Changed;
    AimedWithin(before, view, target, UPLOAD, []);
    UnchangedElsewhere(before, after, view.writable, {AimedPath(before, view, target).value}, place);
  }

  lemma LockElsewhere(before: Moment, after: Moment, view: View, target: DavTarget, owner: Option<Bytes>,
                      depthInfinity: bool, uuid: Bytes, status: Status, seen: Seen, lock: LockEntry, place: Path)
    requires SeparateRoots(view.writable) && LinksKeptOut(before.tree, view.writable) && WellParsed(target)
    requires Elsewhere(view.writable, place)
    requires NewLock(before, after, AimedPath(before.tree, view, target), LockKey(target), owner, depthInfinity, uuid,
                     status, seen, lock)
    ensures !Changed(before.tree, after.tree, place)
  {
    hide SeparateRoots, LinksKeptOut, WellParsed, AimedPath, Elsewhere, Within, StagingPath, LockKey, OpensAt, CanOpen;
    var path := AimedPath(before.tree, view, target).value;
    AimedWithin(before.tree, view, target, UPLOAD, []);
    LockedInPlace(before, after, path, LockKey(target), owner, depthInfinity, uuid, status, seen, lock);
    PutOutside(before.tree, path, File([]));
    OutsideNothing(before.tree, {path});
    OnePlaceElsewhere(before.tree, after.tree, view, target, place);
  }

  lemma TransferElsewhere(devices: Devices, before: Moment, after: Moment, view: View, source: DavTarget,
                          destination: DavTarget, move: bool, from: Path, to: Path, uuid: Bytes, swapped: bool,
                          status: Status, seen: Seen, place: Path)
    requires SeparateRoots(view.writable) && LinksKeptOut(before.tree, view.writable)
    requires WellParsed(source) && WellParsed(destination) && Elsewhere(view.writable, place)
    requires Parted(before.tree, view, source, destination, move, from, to)
    requires CarriedOut(devices, before, after, from, to, StagingPath(to, STAGE, uuid), move, swapped, status, seen)
    ensures !Changed(before.tree, after.tree, place)
  {
    hide SeparateRoots, LinksKeptOut, WellParsed, AimedPath, WritePath, ReadPath, Elsewhere, Within, StagingPath,
      SameOutside, Changed;
    var staging := StagingPath(to, STAGE, uuid);
    AimedWithin(before.tree, view, destination, STAGE, uuid);
    AimedOrWritten(before.tree, view, source);
    if move { AimedWithin(before.tree, view, source, STAGE, uuid); }
    UnchangedElsewhere(before.tree, after.tree, view.writable,
                       if move then {from, staging, to} else {staging, to}, place);
  }

  /** A step of somebody else, whose folders have nothing to do with the place, leaves it alone. */
  lemma StepElsewhere(devices: Devices, limit: nat, record: Record, place: Path)
    requires Happened(devices, limit, record) && Orderly(record.before.tree, record.request)
    requires Elsewhere(record.request.view.writable, place)
    ensures !Changed(record.before.tree, record.after.tree, place)
  {
    hide SeparateRoots, LinksKeptOut, WellParsed, Parted, CarriedOut, LetThrough, GuardedStep, OnlyGone, Unhindered,
      Unused, Sound, AimedPath, WritePath, Possible, DevoursItself, Hindered, Grantable, LeftAsItWas, NewLock, Accepted,
      Elsewhere, LockKey, StagingPath, Received;
    var before, after := record.before, record.after;
    if FromPath(record.request.path).Success? && after.tree != before.tree {
      var target := FromPath(record.request.path).value;
      ParsedIsWellParsed(record.request.path);
      AimedOrWritten(before.tree, record.request.view, target);
      match record.request
      case PutRequest(view, _, _, _, body) =>
        PutElsewhere(before, after, view, target, Received(body), record.uuid, place);
      case MkcolRequest(view, _, _) =>
        PutOutside(before.tree, AimedPath(before.tree, view, target).value, Directory);
        OnePlaceElsewhere(before.tree, after.tree, view, target, place);
      case DeleteRequest(view, _, _) =>
        var path := AimedPath(before.tree, view, target).value;
        WithoutIsPruned(before.tree, path);
        PrunedOutside(before.tree, after.tree, path);
        OnePlaceElsewhere(before.tree, after.tree, view, target, place);
      case LockRequest(view, _, _, _, depthInfinity, owner, _) =>
        LockElsewhere(before, after, view, target, owner, depthInfinity, record.uuid, record.status, record.seen,
                      record.granted.value, place);
      case TransferRequest(view, _, destination, _, _, move) =>
        ParsedIsWellParsed(destination.value);
        TransferElsewhere(devices, before, after, view, target, DestinationOf(record.request).value, move,
                          record.report.source, record.report.destination, record.uuid, record.report.swapped,
                          record.status, record.seen, place);
      case _ =>
    }
  }

  // ---------------------------------------------------------------------------
  // What a lock is for
  // ---------------------------------------------------------------------------

  /** A step that neither ends a lock nor presents its token leaves what the lock covers as it was. */
  lemma StepRespectsLock(devices: Devices, limit: nat, record: Record, token: Bytes, locked: seq<Bytes>,
                         names: seq<Bytes>)
    requires Happened(devices, limit, record) && Orderly(record.before.tree, record.request)
    requires token in record.before.locks && !Ends(record, token, locked) && token !in Presented(record.request)
    requires names != [] && AllFileNames(names) && names[0] in record.request.view.writable
    requires record.before.locks[token].Covers(Join(names, SLASH))
    ensures !Changed(record.before.tree, record.after.tree, Place(record.request.view.writable, names))
  {
    hide Handled, Orderly, Changed, Unused;
    StepIsOrderly(devices, limit, record);
    assert token in Live(record.before.locks, record.after.clock);
    assert record.before.locks[token].token == token;
  }

  /** A request that reaches the place by the names, without the token; or one that cannot reach it at all. */
  ghost predicate Respects(request: Request, token: Bytes, names: seq<Bytes>, place: Path)
    requires names != []
  {
    var roots := request.view.writable;
    || Elsewhere(roots, place)
    || (token !in Presented(request) && names[0] in roots && Place(roots, names) == place)
  }

  /**
   From the moment a lock is there until something ends it, no request without its token changes
   anything the lock covers, whoever sends it: those who can write there under the same name,
   and those whose folders have nothing to do with it.
   */
  lemma {:induction false} LockProtects(devices: Devices, limit: nat, history: seq<Record>, start: Moment, end: Moment,
                                        token: Bytes, locked: seq<Bytes>, names: seq<Bytes>, place: Path)
    requires AllHappened(devices, limit, history) && Chained(history, start, end)
    requires token in start.locks && TakenOn(start.locks[token], locked)
    requires names != [] && AllFileNames(names)
    requires names == locked || (start.locks[token].depthInfinity && locked <= names)
    requires forall i | 0 <= i < |history| :: Orderly(start.tree, history[i].request)
    requires forall i | 0 <= i < |history| :: Respects(history[i].request, token, names, place)
    requires forall i | 0 <= i < |history| :: !Ends(history[i], token, locked)
    ensures !Changed(start.tree, end.tree, place)
    decreases |history|
  {
    hide Happened, Ends, Orderly, Place, Elsewhere;
    CoversNames(start.locks[token], locked, names);
    if history != [] {
      var rest, middle := history[1..], history[0].after;
      assert Happened(devices, limit, history[0]) && Orderly(start.tree, history[0].request);
      assert !Ends(history[0], token, locked) && Respects(history[0].request, token, names, place);
      if Elsewhere(history[0].request.view.writable, place) {
        StepElsewhere(devices, limit, history[0], place);
      } else {
        StepRespectsLock(devices, limit, history[0], token, locked, names);
      }
      StepKeepsLock(devices, limit, history[0], token, locked);
      StepIsOrderly(devices, limit, history[0]);
      OrderlyRest(history, start.tree, middle.tree);
      assert forall i | 0 <= i < |rest| :: rest[i] == history[i + 1];
      LockProtects(devices, limit, rest, middle, end, token, locked, names, place);
    }
  }
}
