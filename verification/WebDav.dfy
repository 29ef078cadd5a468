/** The mutating handlers of webdav.rs, each one whole step over the disk, the lock table and a clock. */
module WebDav {
  import opened ByteStrings
  import opened CopyEntry
  import opened DavPath
  import opened Disk
  import opened FileTree
  import opened HandlerProofs
  import opened Locks
  import opened Outcomes
  import opened SafePath
  import opened Staging
  import opened Timeouts
  import opened Transfer
  import opened Upload
  import opened WriteGuard
  import opened Wrappers

  class Server {
    const disk: Disk
    const table: LockTable
    const maxUpload: nat
    var clock: nat

    ghost predicate Valid()
      reads this, disk, table
    {
      disk.Valid() && Sound(table.locks)
    }

    ghost function Here(): Moment
      reads this, disk, table
    {
      Moment(disk.tree, table.locks, clock, disk.faults, disk.log)
    }

    constructor (tree: Tree, devices: Devices, room: nat, maxUpload: nat)
      requires WellFormed(tree)
      ensures Valid() && fresh(disk) && fresh(table)
      ensures disk.tree == tree && disk.devices == devices && disk.room == room
      ensures table.locks == map[] && this.maxUpload == maxUpload
    {
      disk := new Disk(tree, devices, room);
      table := new LockTable();
      this.maxUpload := maxUpload;
      clock := 0;
    }

    /** `Instant::now`. */
    method Now() returns (now: nat)
      modifies this`clock
      ensures now == clock >= old(clock)
    {
      now :| now >= clock;
      clock := now;
    }

    /** The lock check of a handler. */
    method Check(key: Bytes, tokens: seq<Bytes>) returns (blocked: bool, ghost checkedAt: nat)
      requires Sound(table.locks)
      modifies this`clock, table
      ensures Sound(table.locks) && OnlyGone(old(table.locks), table.locks, clock, {})
      ensures checkedAt == clock >= old(clock) && table.locks == Live(old(table.locks), checkedAt)
      ensures blocked <==> Blocking(Live(old(table.locks), checkedAt), key, tokens) != {}
    {
      ghost var locks := table.locks;
      var now := Now();
      checkedAt := now;
      PurgedOnly(locks, now, now);
      var lock := table.Conflict(key, tokens, now);
      FewerLocksAreSound(locks, table.locks);
      blocked := lock.Some?;
    }

    /** A symbolic link in the place of the target is refused, unless looking for one fails. */
    method ResolveWriteTarget(view: View, target: DavTarget) returns (r: Result<Path, Status>)
      modifies disk`faults, disk`log
      ensures disk.faults >= old(disk.faults)
      ensures r.Failure? && disk.faults == old(disk.faults) ==> WritePath(disk.tree, view, target) == None
      ensures r.Failure? && disk.faults == old(disk.faults) ==> WriteRefusal(disk.tree, view, target) == Some(r.error)
      ensures r.Success? ==> AimedPath(disk.tree, view, target) == Some(r.value)
      ensures r.Success? && disk.faults == old(disk.faults) ==>
                !IsLink(disk.tree, r.value) && WriteRefusal(disk.tree, view, target) == None
      ensures r.Success? ==> disk.faults == old(disk.faults) || disk.FailedLast(old(disk.faults), LinkCheck(r.value))
      ensures r.Success? ==> OnlyLooked(old(disk.log), old(disk.faults), disk.log, disk.faults)
      ensures r.Failure? ==> Refuses(r.error)
    {
      if target.root.None? || target.relative == [] { return Failure(Forbidden); }
      if target.root.value !in view.writable { return Failure(Forbidden); }
      var io := disk.Hiccup();
      if io.IoErr? { return Failure(Conflicting); }
      match Aim(disk.tree, view.writable[target.root.value], target.relative)
      case Success(path) =>
        var link := disk.IsSymlink(path);
        r := if link then Failure(Conflicting) else Success(path);
      case Failure(_) => r := Failure(Conflicting);
    }

    method ResolveMutatingExisting(view: View, target: DavTarget) returns (r: Result<Path, Status>)
      modifies disk`faults, disk`log
      ensures disk.faults >= old(disk.faults)
      ensures r.Failure? && disk.faults == old(disk.faults) ==>
                var path := WritePath(disk.tree, view, target); path.None? || path.value !in disk.tree
      ensures r.Failure? && disk.faults == old(disk.faults) ==> EntryRefusal(disk.tree, view, target) == Some(r.error)
      ensures r.Success? ==> WritePath(disk.tree, view, target) == Some(r.value)
      ensures r.Success? && r.value != [] ==> EntryRefusal(disk.tree, view, target) == None
      ensures r.Failure? ==> Refuses(r.error)
      ensures r.Success? ==> (r.value == [] || r.value in disk.tree) && !IsLink(disk.tree, r.value)
      ensures r.Success? ==> OnlyLooked(old(disk.log), old(disk.faults), disk.log, disk.faults)
    {
      AimedOrWritten(disk.tree, view, target);
      r := ResolveWriteTarget(view, target);
      if r.Failure? { return Failure(if r.error == Conflicting then Absent else r.error); }
      var metadata := disk.Stat(r.value);
      if metadata.Failure? { return Failure(if metadata.error == IoError.NotFound then Absent else ServerError); }
      if metadata.value == SymlinkKind { return Failure(Forbidden); }
    }

    method ResolveExisting(view: View, target: DavTarget) returns (r: Result<Path, Status>)
      modifies disk`faults, disk`log
      ensures disk.faults >= old(disk.faults)
      ensures r.Failure? && disk.faults == old(disk.faults) ==> ReadPath(disk.tree, view, target) == None
      ensures r.Failure? && disk.faults == old(disk.faults) && target.root.Some? && target.relative != [] ==>
                ReadRefusal(disk.tree, view, target) == Some(r.error)
      ensures r.Success? && target.relative != [] ==> ReadRefusal(disk.tree, view, target) == None
      ensures r.Success? ==> ReadPath(disk.tree, view, target) == Some(r.value)
      ensures r.Success? ==> OnlyLooked(old(disk.log), old(disk.faults), disk.log, disk.faults)
      ensures r.Failure? ==> Refuses(r.error)
    {
      if target.root.None? { return Failure(MethodNotAllowed); }
      if target.root.value !in view.readable { return Failure(Forbidden); }
      var io := disk.Hiccup();
      if io.IoErr? { return Failure(Absent); }
      match Resolve(disk.tree, view.readable[target.root.value], target.relative)
      case Success(path) => r := Success(path);
      case Failure(_) => r := Failure(Absent);
    }

    method Put(view: View, target: DavTarget, tokens: seq<Bytes>, declared: Option<nat>, body: Body, uuid: Bytes)
      returns (status: Status, ghost seen: Seen, ghost checkedAt: nat)
      requires Valid() && WellParsed(target) && Unused(disk.tree, table.locks, uuid)
      modifies this`clock, disk, table
      ensures Valid()
      ensures PutOutcome(old(Here()), Here(), view, target, tokens, declared, body, maxUpload, uuid, status, seen,
                         checkedAt)
    {
      hide SameOutside, Guarded, SeparateRoots, ClearWay, WellParsed, AimedPath, WritePath, Fillable, Blocking,
        FileTree.WellFormed, Sound, Received, Complete, OnlyGone, NoNewLocks, Unused, StagingPath, Followed,
        PlaceRefusal, BodyAnswered;
      ghost var before := Here();
      PlaceRefusedIff(before.tree, view, target);
      Idle(before.tree, view.writable, tokens);
      NothingGone(before.locks);
      checkedAt, seen := clock, Seen(false, false);
      var resolved := ResolveFillable(view, target);
      if resolved.Failure? { return resolved.error, seen, checkedAt; }
      var (path, existed) := resolved.value;
      seen := Seen(existed, false);
      WrittenName(before.tree, view, target);
      var blocked: bool;
      blocked, checkedAt := Check(LockKey(target), tokens);
      if blocked { return Locked, seen, checkedAt; }
      if declared.Some? && declared.value > maxUpload { return PayloadTooLarge, seen, checkedAt; }
      status := StoreUpload(before, view, target, tokens, path, existed, body, uuid);
    }

    /** Where PUT writes and whether something was seen there, or the status that refuses it. */
    method ResolveFillable(view: View, target: DavTarget) returns (r: Result<(Path, bool), Status>)
      requires disk.Valid() && WellParsed(target)
      modifies disk`faults, disk`log
      ensures disk.faults >= old(disk.faults) && (r.Failure? ==> Refuses(r.error))
      ensures r.Failure? && disk.faults == old(disk.faults) ==>
                && !Fillable(disk.tree, WritePath(disk.tree, view, target))
                && PlaceRefusal(disk.tree, view, target, false) == Some(r.error)
      ensures r.Success? ==> AimedPath(disk.tree, view, target) == Some(r.value.0)
      ensures r.Success? ==> (r.value.1 ==> Followed(disk.tree, r.value.0).Some?)
      ensures r.Success? && disk.faults == old(disk.faults) ==>
                && WritePath(disk.tree, view, target) == Some(r.value.0) && !IsLink(disk.tree, r.value.0)
                && r.value.1 == Followed(disk.tree, r.value.0).Some?
                && PlaceRefusal(disk.tree, view, target, false) == None
    {
      hide WellParsed, AimedPath, WritePath, FileTree.WellFormed, Followed;
      AimedOrWritten(disk.tree, view, target);
      var resolved := ResolveWriteTarget(view, target);
      if resolved.Failure? { return Failure(resolved.error); }
      var path := resolved.value;
      AimedInto(disk.tree, view, target);
      var existed := disk.Exists(path);
      if existed {
        var directory := disk.IsDirectory(path);
        if directory { return Failure(MethodNotAllowed); }
      }
      var housed := disk.IsDirectory(Parent(path));
      if !housed { return Failure(Conflicting); }
      r := Success((path, existed));
    }

    /** The end of PUT: stream the body, swap it in, and find a status. */
    method StoreUpload(ghost before: Moment, view: View, target: DavTarget, tokens: seq<Bytes>, path: Path,
                       existed: bool, body: Body, uuid: Bytes) returns (status: Status)
      requires disk.Valid() && WellParsed(target) && Unused(before.tree, before.locks, uuid)
      requires disk.tree == before.tree && AimedPath(before.tree, view, target) == Some(path)
      requires path != [] && Ordinary(path[|path| - 1])
      requires disk.faults >= before.faults && Unhindered(before, LockKey(target), tokens, clock)
      modifies disk
      ensures disk.Valid() && disk.faults >= old(disk.faults)
      ensures GuardedStep(before, Here(), view, {target}, tokens, clock)
      ensures if status in {Created, NoContent} then
                && Fillable(before.tree, Some(path)) && Complete(body)
                && (maxUpload < U64_MAX ==> |Received(body)| <= maxUpload)
                && disk.tree == before.tree[path := File(Received(body))] && (status == NoContent <==> existed)
              else LeftAsItWas(before, Here(), Some(path), uuid)
      ensures disk.faults == old(disk.faults) && Fillable(before.tree, Some(path)) ==>
                && (Complete(body) && |Received(body)| <= maxUpload ==> status in {Created, NoContent})
                && BodyAnswered(body, maxUpload, status)
      ensures Succeeds(status) ==> status in {Created, NoContent}
      ensures status != Locked && (status == PayloadTooLarge ==> |Received(body)| > maxUpload)
    {
      hide SameOutside, Guarded, SeparateRoots, ClearWay, WellParsed, AimedPath, Blocking, Live, FileTree.WellFormed,
        Received, Complete, Unused, StagingPath, Incomparable;
      var staging := StagingPath(path, UPLOAD, uuid);
      StagingFits(before.tree, before.locks, path, UPLOAD, uuid);
      OutsideNothing(before.tree, {staging, path});
      var stored := StoreBody(disk, path, staging, body, maxUpload);
      if stored.Success? {
        PutOutside(before.tree, path, File(Received(body)));
        OutsideWider(before.tree, disk.tree, {path}, {staging, path});
        status := if existed then NoContent else Created;
      } else {
        if disk.tree != before.tree {
          ghost var content :| disk.tree == before.tree[staging := File(content)];
          PutOutside(before.tree, staging, File(content));
          OutsideWider(before.tree, disk.tree, {staging}, {staging, path});
        }
        status := match stored.error
          case BadBody => BadRequest
          case TooLarge => PayloadTooLarge
          case Io(e) => IoStatus(e);
      }
      StagedPlaceGuarded(before.tree, disk.tree, view, before.locks, clock, tokens, target, UPLOAD, uuid);
    }

    method Mkcol(view: View, target: DavTarget, tokens: seq<Bytes>) returns (status: Status, ghost checkedAt: nat)
      requires Valid() && WellParsed(target)
      modifies this`clock, disk, table
      ensures Valid() && MkcolOutcome(old(Here()), Here(), view, target, tokens, status, checkedAt)
    {
      hide SameOutside, Guarded, SeparateRoots, ClearWay, WellParsed, AimedPath, WritePath, Blocking, PlaceRefusal,
        FileTree.WellFormed, Sound, OnlyGone, NoNewLocks, Live, LockKey;
      ghost var before := Here();
      Idle(before.tree, view.writable, tokens);
      NothingGone(before.locks);
      PlaceRefusedIff(before.tree, view, target);
      checkedAt := clock;
      var resolved := ResolveVacant(view, target);
      if resolved.Failure? { return resolved.error, checkedAt; }
      var path := resolved.value;
      var blocked: bool;
      blocked, checkedAt := Check(LockKey(target), tokens);
      if blocked { return Locked, checkedAt; }
      var made := disk.CreateDir(path);
      if made.IoErr? { return IoStatus(made.error), checkedAt; }
      status := Created;
      PutOutside(before.tree, path, Directory);
      AimedOrWritten(before.tree, view, target);
      OnePlaceGuarded(before.tree, disk.tree, view, Live(before.locks, checkedAt), tokens, target);
    }

    /** Where MKCOL makes a folder, or the status that refuses it. */
    method ResolveVacant(view: View, target: DavTarget) returns (r: Result<Path, Status>)
      requires disk.Valid() && WellParsed(target)
      modifies disk`faults, disk`log
      ensures disk.faults >= old(disk.faults) && (r.Failure? ==> Refuses(r.error))
      ensures r.Failure? && disk.faults == old(disk.faults) ==>
                PlaceRefusal(disk.tree, view, target, true) == Some(r.error)
      ensures r.Success? ==> r.value != [] && AimedPath(disk.tree, view, target) == Some(r.value)
      ensures r.Success? && disk.faults == old(disk.faults) ==>
                && WritePath(disk.tree, view, target) == Some(r.value)
                && PlaceRefusal(disk.tree, view, target, true) == None
    {
      hide WellParsed, AimedPath, WritePath, FileTree.WellFormed, Followed, OnlyLooked;
      AimedOrWritten(disk.tree, view, target);
      var resolved := ResolveWriteTarget(view, target);
      if resolved.Failure? { return Failure(resolved.error); }
      var path := resolved.value;
      AimedInto(disk.tree, view, target);
      var existed := disk.Exists(path);
      if existed { return Failure(MethodNotAllowed); }
      var housed := disk.IsDirectory(Parent(path));
      if !housed { return Failure(Conflicting); }
      r := Success(path);
    }

    method Delete(view: View, target: DavTarget, tokens: seq<Bytes>) returns (status: Status, ghost checkedAt: nat)
      requires Valid() && WellParsed(target)
      modifies this`clock, disk, table
      ensures Valid() && DeleteOutcome(old(Here()), Here(), view, target, tokens, status, checkedAt)
    {
      hide SameOutside, Guarded, SeparateRoots, ClearWay, WellParsed, AimedPath, WritePath, Blocking,
        FileTree.WellFormed, Sound, OnlyGone, NoNewLocks, NoneUnder, Without, Pruned, LockKey, Live, EntryRefusal;
      ghost var before := Here();
      Idle(before.tree, view.writable, tokens);
      NothingGone(before.locks);
      NoNameNoPath(before.tree, view, target);
      AimedOrWritten(before.tree, view, target);
      checkedAt := clock;
      if target.root.None? || target.relative == [] { return Forbidden, checkedAt; }
      var resolved := ResolveMutatingExisting(view, target);
      if resolved.Failure? { return resolved.error, checkedAt; }
      var path := resolved.value;
      WrittenName(before.tree, view, target);
      var key := LockKey(target);
      var blocked: bool;
      blocked, checkedAt := Check(key, tokens);
      if blocked { return Locked, checkedAt; }
      status := RemoveAt(before, view, target, tokens, path, checkedAt);
    }

    /** The end of DELETE: remove the entry, then drop the locks on it. */
    method RemoveAt(ghost before: Moment, view: View, target: DavTarget, ghost tokens: seq<Bytes>, path: Path,
                    ghost checkedAt: nat) returns (status: Status)
      requires Valid() && WellParsed(target) && disk.tree == before.tree && disk.faults >= before.faults
      requires table.locks == Live(before.locks, checkedAt) && before.clock <= checkedAt <= clock
      requires Sound(before.locks) && Unhindered(before, LockKey(target), tokens, checkedAt)
      requires WritePath(before.tree, view, target) == Some(path) && path != [] && path in before.tree
      requires EntryRefusal(before.tree, view, target) == None
      modifies this`clock, disk, table
      ensures Valid() && DeleteOutcome(before, Here(), view, target, tokens, status, checkedAt)
    {
      hide SameOutside, Guarded, SeparateRoots, ClearWay, WellParsed, AimedPath, WritePath, Blocking,
        FileTree.WellFormed, Sound, OnlyGone, NoNewLocks, NoneUnder, Without, Pruned, LockKey, Live, EntryRefusal;
      AimedOrWritten(before.tree, view, target);
      PurgedOnly(before.locks, checkedAt, clock);
      var removed := disk.RemoveEntry(path);
      PrunedOutside(before.tree, disk.tree, path);
      OnePlaceGuarded(before.tree, disk.tree, view, Live(before.locks, checkedAt), tokens, target);
      if removed.IoErr? { return IoStatus(removed.error); }
      var after := Now();
      table.RemoveUnder(LockKey(target), after);
      ForgottenOnly(before.locks, checkedAt, after, LockKey(target));
      FewerLocksAreSound(before.locks, table.locks);
      status := NoContent;
    }

    method CopyOrMove(view: View, source: DavTarget, destination: DavTarget, tokens: seq<Bytes>, overwrite: bool,
                      move: bool, uuid: Bytes)
      returns (status: Status, ghost report: Report, ghost seen: Seen, ghost checkedAt: nat)
      requires Valid() && WellParsed(source) && WellParsed(destination) && Unused(disk.tree, table.locks, uuid)
      modifies this`clock, disk, table
      ensures Valid()
      ensures TransferOutcome(disk.devices, old(Here()), Here(), view, source, destination, tokens, overwrite, move,
                              uuid, status, report, seen, checkedAt)
    {
      hide TransferOutcome, CarriedOut, Possible, Parted, Hindered, LetThrough, Sound, Copyable, Guarded, SeparateRoots,
        ClearWay, GuardedStep, WellParsed, Unused, OnlyGone, NoNewLocks, NoneUnder, OnlyLooked, Live, LockKey,
        FileTree.WellFormed, StagingPath;
      ghost var before := Here();
      report := Refused;
      var ready: Result<(Path, Path, bool), Status>;
      ready, seen, checkedAt := Admit(view, source, destination, tokens, overwrite, move);
      if ready.Failure? {
        RefusedEnds(disk.devices, before, Here(), view, source, destination, tokens, overwrite, move, uuid, ready.error,
                    seen, checkedAt);
        return ready.error, report, seen, checkedAt;
      }
      var (from, to, existed) := ready.value;
      ghost var admitted := Here();
      LetThroughSays(before, admitted, from, to, overwrite, seen);
      ghost var swapped;
      status, swapped := CarryOut(before, checkedAt, view, source, destination, tokens, from, to, move, existed, uuid,
                                  seen);
      report := Attempted(from, to, StagingPath(to, STAGE, uuid), swapped);
      ghost var there := Here();
      ghost var locks := table.locks;
      if Succeeds(status) {
        ForgetEnds(LockKey(source), LockKey(destination), move, status == NoContent);
      }
      GoneLater(before.locks, locks, there.clock, clock, {});
      NothingGone(locks);
      GoneFurther(before.locks, locks, table.locks, clock, ForgottenKeys(source, destination, move, status));
      StillCarriedOut(disk.devices, before, there, Here(), from, to, StagingPath(to, STAGE, uuid), move, swapped,
                      status, seen);
      StillLetThrough(before, admitted, Here(), from, to, overwrite, seen);
      StillGuarded(before, there, Here(), view, if move then {source, destination} else {destination}, tokens,
                   checkedAt);
      AttemptEnds(disk.devices, before, Here(), view, source, destination, tokens, overwrite, move, uuid, status, from,
                  to, swapped, seen, checkedAt);
    }

    /** The writing of a COPY or MOVE, and what its result says. */
    method Bring(ghost before: Moment, from: Path, to: Path, staging: Path, move: bool, existed: bool, ghost seen: Seen)
      returns (moved: IoResult, ghost swapped: bool)
      requires disk.Valid() && disk.tree == before.tree && disk.faults >= before.faults
      requires EndsFit(before.tree, from, to, staging) && (move ==> from != []) && IsDir(before.tree, Parent(to))
      requires OnlyLooked(before.log, before.faults, disk.log, disk.faults)
      requires PlaceSeen(before, Here(), to, seen) && existed == seen.there
      modifies disk
      ensures disk.Valid() && disk.faults >= old(disk.faults)
      ensures Brought(disk.devices, before, Here(), from, to, staging, move, swapped)
      ensures moved.IoOk? ==> swapped && (Renames(disk.devices, from, to, move) || Copyable(before.tree, from))
      ensures moved.IoOk? && move && Incomparable(from, to) ==> Sub(disk.tree, from) == map[]
      ensures moved.IoErr? && swapped ==> move && !Renames(disk.devices, from, to, move)
      ensures moved.IoErr? && swapped ==> RemovalFailedAt(before, Here(), from) || to <= from
      ensures disk.faults == before.faults && !(from <= to)
              && !(move && !Renames(disk.devices, from, to, move) && to <= from) ==>
                (Renames(disk.devices, from, to, move) || Copyable(before.tree, from) ==> moved.IoOk?)
      ensures !swapped && disk.faults == before.faults && !(from <= to) && !Renames(disk.devices, from, to, move) ==>
                moved == IoErr(CopyError(before.tree, from))
    {
      hide Fits, Tidy, KeptUntilSwap, ReplacedLast, OnlyLooked, Copyable, Sub, Without, FileTree.WellFormed, Followed;
      ghost var ready := Here();
      moved, swapped := Transfer.Transfer(disk, from, to, staging, move, existed);
      if !swapped {
        ReplacedLastInStep(before, ready, Here(), from, to, staging, Renames(disk.devices, from, to, move));
      }
    }

    /** COPY or MOVE from staging to the end, once everything has been checked. */
    method CarryOut(ghost before: Moment, ghost checkedAt: nat, view: View, source: DavTarget, destination: DavTarget,
                    tokens: seq<Bytes>, from: Path, to: Path, move: bool, existed: bool, uuid: Bytes, ghost seen: Seen)
      returns (status: Status, ghost swapped: bool)
      requires disk.Valid() && WellParsed(source) && WellParsed(destination) && Unused(before.tree, before.locks, uuid)
      requires disk.tree == before.tree && disk.faults >= before.faults
      requires Parted(before.tree, view, source, destination, move, from, to)
      requires OnlyLooked(before.log, before.faults, disk.log, disk.faults)
      requires PlaceSeen(before, Here(), to, seen) && existed == seen.there
      requires !Hindered(Live(before.locks, checkedAt), LockKey(source), LockKey(destination), tokens, move)
      modifies disk
      ensures disk.Valid() && disk.faults >= old(disk.faults) && status != Locked
      ensures GuardedStep(before, Here(), view, if move then {source, destination} else {destination}, tokens,
                          checkedAt)
      ensures to != [] && (move ==> from != []) && StagingPath(to, STAGE, uuid) !in before.tree
      ensures CarriedOut(disk.devices, before, Here(), from, to, StagingPath(to, STAGE, uuid), move, swapped, status,
                         seen)
      ensures status in {Created, NoContent} || !Succeeds(status)
      ensures disk.faults == before.faults && !(from <= to)
              && !(move && !Renames(disk.devices, from, to, move) && to <= from) ==>
                (Renames(disk.devices, from, to, move) || Copyable(before.tree, from) ==> Succeeds(status))
      ensures !swapped && disk.faults == before.faults && !(from <= to) && !Renames(disk.devices, from, to, move) ==>
                status == IoStatus(CopyError(before.tree, from))
    {
      hide Fits, EndsFit, WellParsed, AimedPath, WritePath, Possible, DevoursItself, Hindered, Blocking, Live, Brought,
        PlaceSeen, Copyable, Guarded, SeparateRoots, ClearWay, Unused, OnlyLooked, FileTree.WellFormed, StagingPath,
        Sub;
      var staging := StagingPath(to, STAGE, uuid);
      PartedDecides(disk.devices, before.tree, view, source, destination, true, move, from, to);
      WrittenName(before.tree, view, destination);
      AimedOrWritten(before.tree, view, source);
      StagingFits(before.tree, before.locks, to, STAGE, uuid);
      PlanFits(before.tree, before.locks, from, to, STAGE, uuid);
      var moved: IoResult;
      moved, swapped := Bring(before, from, to, staging, move, existed, seen);
      BroughtFits(disk.devices, before, Here(), from, to, staging, move, swapped);
      TransferGuarded(before.tree, disk.tree, view, before.locks, checkedAt, tokens, source, destination, move,
                      from, to, uuid, Renames(disk.devices, from, to, move), swapped);
      status := if moved.IoErr? then IoStatus(moved.error) else if existed then NoContent else Created;
    }

    /** Everything COPY and MOVE check before they write: both paths, both locks, the Overwrite header. */
    method Admit(view: View, source: DavTarget, destination: DavTarget, tokens: seq<Bytes>, overwrite: bool, move: bool)
      returns (r: Result<(Path, Path, bool), Status>, ghost seen: Seen, ghost checkedAt: nat)
      requires Valid() && WellParsed(source) && WellParsed(destination)
      modifies this`clock, table, disk`faults, disk`log
      ensures Valid() && disk.faults >= old(disk.faults) && OnlyGone(old(table.locks), table.locks, clock, {})
      ensures old(clock) <= checkedAt <= clock
      ensures r.Failure? ==> !Succeeds(r.error)
      ensures r.Success? ==> Parted(disk.tree, view, source, destination, move, r.value.0, r.value.1)
      ensures r.Success? ==> LetThrough(old(Here()), Here(), r.value.0, r.value.1, overwrite, seen)
      ensures r.Success? ==> r.value.2 == seen.there
      ensures r.Success? ==> OnlyLooked(old(disk.log), old(disk.faults), disk.log, disk.faults)
      ensures r.Failure? && disk.faults == old(disk.faults) ==>
                !Possible(disk.devices, disk.tree, view, source, destination, overwrite, move)
                || Hindered(Live(old(table.locks), checkedAt), LockKey(source), LockKey(destination), tokens, move)
      ensures r.Success? ==>
                !Hindered(Live(old(table.locks), checkedAt), LockKey(source), LockKey(destination), tokens, move)
      ensures r.Failure? && disk.faults == old(disk.faults) ==>
                var hindered :=
                  Hindered(Live(old(table.locks), checkedAt), LockKey(source), LockKey(destination), tokens, move);
                && TransferAnswered(disk.tree, view, source, destination, hindered, overwrite, move, r.error)
                && TurnedAway(disk.tree, view, source, destination, hindered, overwrite, move)
      ensures r.Success? && disk.faults == old(disk.faults) ==>
                && EndsRefusal(disk.tree, view, source, destination, move) == None
                && (overwrite || r.value.1 !in disk.tree)
      ensures r == Failure(Locked) ==>
                Hindered(Live(old(table.locks), checkedAt), LockKey(source), LockKey(destination), tokens, move)
    {
      hide Possible, Parted, AimedPath, WritePath, Hindered, Blocking, Live, Sound, Copyable, LockKey, OnlyGone,
        NoNewLocks, OnlyLooked, FileTree.WellFormed, Followed, EndsRefusal;
      NothingGone(table.locks);
      checkedAt, seen := clock, Seen(false, false);
      var ends: Result<(Path, Path), Status>;
      ghost var directory;
      ends, directory := ResolveEnds(view, source, destination, move);
      if ends.Failure? { return Failure(ends.error), seen, checkedAt; }
      var (from, to) := ends.value;
      PartedDecides(disk.devices, disk.tree, view, source, destination, overwrite, move, from, to);
      AimedOrWritten(disk.tree, view, destination);
      var blocked: bool;
      blocked, checkedAt := CheckEnds(LockKey(source), LockKey(destination), tokens, move);
      if blocked { return Failure(Locked), seen, checkedAt; }
      ghost var log, faults := disk.log, disk.faults;
      var existed := disk.Exists(to);
      LookedOn(old(disk.log), old(disk.faults), log, faults, disk.log, disk.faults);
      seen := Seen(existed, directory);
      if existed && !overwrite { return Failure(PreconditionFailed), seen, checkedAt; }
      r := Success((from, to, existed));
    }

    /** The source of a COPY or MOVE, or the status that refuses it. */
    method ResolveSource(view: View, source: DavTarget, move: bool) returns (r: Result<Path, Status>)
      requires disk.Valid() && WellParsed(source) && source.root.Some? && source.relative != []
      modifies disk`faults, disk`log
      ensures disk.faults >= old(disk.faults) && (r.Failure? ==> Refuses(r.error))
      ensures r.Failure? && disk.faults == old(disk.faults) ==>
                var path := SourcePath(disk.tree, view, source, move);
                path.None? || (move && path.value !in disk.tree)
      ensures r.Failure? && disk.faults == old(disk.faults) ==>
                SourceRefusal(disk.tree, view, source, move) == Some(r.error)
      ensures r.Success? ==> SourceRefusal(disk.tree, view, source, move) == None
      ensures r.Success? ==> Some(r.value) == SourcePath(disk.tree, view, source, move)
      ensures r.Success? ==> (r.value == [] || r.value in disk.tree) && !IsLink(disk.tree, r.value)
      ensures r.Success? ==> (move ==> r.value != [])
      ensures r.Success? ==> OnlyLooked(old(disk.log), old(disk.faults), disk.log, disk.faults)
    {
      hide WellParsed, AimedPath, WritePath, ReadPath, OnlyLooked, FileTree.WellFormed, Followed;
      if move {
        r := ResolveMutatingExisting(view, source);
        AimedOrWritten(disk.tree, view, source);
        if r.Success? { WrittenName(disk.tree, view, source); }
      } else {
        r := ResolveExisting(view, source);
        if r.Success? { ReadEntry(disk.tree, view, source); }
      }
    }

    /** The two paths of a COPY or MOVE, or the status that refuses it; and what `is_dir` said of the source. */
    method ResolveEnds(view: View, source: DavTarget, destination: DavTarget, move: bool)
      returns (r: Result<(Path, Path), Status>, ghost directory: bool)
      requires disk.Valid() && WellParsed(source) && WellParsed(destination)
      modifies disk`faults, disk`log
      ensures disk.faults >= old(disk.faults) && (r.Failure? ==> Refuses(r.error))
      ensures r.Failure? && disk.faults == old(disk.faults) ==>
                forall overwrite :: !Possible(disk.devices, disk.tree, view, source, destination, overwrite, move)
      ensures r.Failure? && disk.faults == old(disk.faults) ==>
                EndsRefusal(disk.tree, view, source, destination, move) == Some(r.error)
      ensures r.Success? && disk.faults == old(disk.faults) ==>
                EndsRefusal(disk.tree, view, source, destination, move) == None
      ensures r.Success? ==> Parted(disk.tree, view, source, destination, move, r.value.0, r.value.1)
      ensures r.Success? ==> (directory ==> IsDir(disk.tree, r.value.0)) && !(directory && r.value.0 <= r.value.1)
      ensures r.Success? && disk.faults == old(disk.faults) ==> !IsLink(disk.tree, r.value.1)
      ensures r.Success? && IsDir(disk.tree, r.value.0) ==>
                directory || disk.FailedLast(old(disk.faults), Looking(r.value.0))
      ensures r.Success? ==> OnlyLooked(old(disk.log), old(disk.faults), disk.log, disk.faults)
    {
      hide WellParsed, AimedPath, WritePath, ReadPath, OnlyLooked, FileTree.WellFormed, Followed;
      directory := false;
      ghost var log, faults := disk.log, disk.faults;
      NoNameNoPath(disk.tree, view, source);
      NoNameNoPath(disk.tree, view, destination);
      NoNameNoRead(disk.tree, view, source);
      if source.root.None? || source.relative == [] { return Failure(Forbidden), directory; }
      if destination.root.None? || destination.relative == [] { return Failure(Forbidden), directory; }
      var origin := ResolveSource(view, source, move);
      if origin.Failure? { return Failure(origin.error), directory; }
      var from := origin.value;
      ghost var log', faults' := disk.log, disk.faults;
      var resolved := ResolveWriteTarget(view, destination);
      if resolved.Failure? { return Failure(resolved.error), directory; }
      LookedOn(log, faults, log', faults', disk.log, disk.faults);
      log', faults' := disk.log, disk.faults;
      var to := resolved.value;
      AimedOrWritten(disk.tree, view, destination);
      AimedInto(disk.tree, view, destination);
      var housed := disk.IsDirectory(Parent(to));
      if !housed { return Failure(Conflicting), directory; }
      if from == to { return Failure(Forbidden), directory; }
      LookedOn(log, faults, log', faults', disk.log, disk.faults);
      log', faults' := disk.log, disk.faults;
      var within := disk.IsDirectory(from);
      LookedOn(log, faults, log', faults', disk.log, disk.faults);
      directory := within;
      if within && from <= to { return Failure(Forbidden), directory; }
      r := Success((from, to));
    }

    /** The lock checks of a COPY or MOVE: the source only for a MOVE, then the destination. */
    method CheckEnds(sourceKey: Bytes, destinationKey: Bytes, tokens: seq<Bytes>, move: bool)
      returns (blocked: bool, ghost checkedAt: nat)
      requires Sound(table.locks)
      modifies this`clock, table
      ensures Sound(table.locks) && OnlyGone(old(table.locks), table.locks, clock, {})
      ensures old(clock) <= checkedAt <= clock
      ensures blocked <==> Hindered(Live(old(table.locks), checkedAt), sourceKey, destinationKey, tokens, move)
    {
      ghost var locks := table.locks;
      var first := Now();
      if move {
        var lock := table.Conflict(sourceKey, tokens, first);
        FewerLocksAreSound(locks, table.locks);
        if lock.Some? { return true, first; }
      }
      var second := Now();
      LiveLater(locks, first, second, sourceKey, tokens);
      var lock := table.Conflict(destinationKey, tokens, second);
      FewerLocksAreSound(locks, table.locks);
      blocked, checkedAt := lock.Some?, second;
    }

    /** The locks that go when a COPY or MOVE has succeeded. */
    method ForgetEnds(sourceKey: Bytes, destinationKey: Bytes, move: bool, existed: bool)
      requires Sound(table.locks)
      modifies this`clock, table
      ensures Sound(table.locks) && clock >= old(clock)
      ensures OnlyGone(old(table.locks), table.locks, clock,
                       (if move then {sourceKey} else {}) + (if existed then {destinationKey} else {}))
      ensures move ==> NoneUnder(table.locks, sourceKey)
      ensures existed ==> NoneUnder(table.locks, destinationKey)
    {
      ghost var locks := table.locks;
      if move {
        var now := Now();
        table.RemoveUnder(sourceKey, now);
      }
      if existed {
        var now := Now();
        table.RemoveUnder(destinationKey, now);
      }
      FewerLocksAreSound(locks, table.locks);
    }

    method Lock(view: View, target: DavTarget, tokens: seq<Bytes>, hasBody: bool, depthInfinity: bool,
                owner: Option<Bytes>, timeoutHeader: Option<Bytes>, uuid: Bytes)
      returns (status: Status, granted: Option<LockEntry>, ghost seen: Seen, ghost checkedAt: nat)
      requires Valid() && WellParsed(target) && Unused(disk.tree, table.locks, uuid)
      modifies this`clock, disk, table
      ensures Valid()
      ensures LockOutcome(old(Here()), Here(), view, target, tokens, hasBody, depthInfinity, owner,
                          LockTimeout(timeoutHeader), uuid, status, granted, seen, checkedAt)
    {
      hide SameOutside, Guarded, SeparateRoots, ClearWay, WellParsed, AimedPath, WritePath, Blocking,
        FileTree.WellFormed, Sound, Unused, OnlyGone, NoNewLocks, LockKey, LockTimeout;
      ghost var before := Here();
      Idle(before.tree, view.writable, []);
      NothingGone(before.locks);
      AimedOrWritten(before.tree, view, target);
      checkedAt, granted, seen := clock, None, Seen(false, false);
      var resolved := ResolveWriteTarget(view, target);
      if resolved.Failure? { return resolved.error, None, seen, checkedAt; }
      var path := resolved.value;
      WrittenName(before.tree, view, target);
      var timeout := LockTimeout(timeoutHeader);
      if hasBody {
        status, granted, seen, checkedAt :=
          Acquire(before, view, target, tokens, path, depthInfinity, owner, timeout, uuid);
        return;
      }
      if tokens == [] { return BadRequest, None, seen, checkedAt; }
      granted, checkedAt := Renew(tokens[0], LockKey(target), timeout);
      status := if granted.Some? then Ok else PreconditionFailed;
    }

    /** LOCK with a body: check, create what is missing, and file a new lock. */
    method Acquire(ghost before: Moment, view: View, target: DavTarget, ghost tokens: seq<Bytes>, path: Path,
                   depthInfinity: bool, owner: Option<Bytes>, timeout: nat, uuid: Bytes)
      returns (status: Status, granted: Option<LockEntry>, ghost seen: Seen, ghost checkedAt: nat)
      requires Valid() && WellParsed(target) && Unused(before.tree, before.locks, uuid)
      requires disk.tree == before.tree && table.locks == before.locks
      requires clock >= before.clock && disk.faults >= before.faults
      requires AimedPath(before.tree, view, target) == Some(path) && path != []
      requires disk.faults == before.faults ==>
                 !IsLink(before.tree, path) && WriteRefusal(before.tree, view, target) == None
      requires disk.faults == before.faults || disk.FailedLast(before.faults, LinkCheck(path))
      modifies this`clock, disk, table
      ensures Valid()
      ensures LockOutcome(before, Here(), view, target, tokens, true, depthInfinity, owner, timeout, uuid,
                          status, granted, seen, checkedAt)
    {
      hide SameOutside, Guarded, SeparateRoots, ClearWay, WellParsed, AimedPath, WritePath, Blocking,
        FileTree.WellFormed, Sound, Unused, OnlyGone, NoNewLocks, LockKey, Followed, OpensAt, CanOpen, Emptied,
        WriteRefusal;
      Idle(before.tree, view.writable, []);
      AimedOrWritten(before.tree, view, target);
      seen := Seen(false, false);
      var blocked: bool;
      blocked, checkedAt := Check(LockKey(target), []);
      if blocked { return Locked, None, seen, checkedAt; }
      status, seen := CreateIfMissing(before, view, target, path, checkedAt);
      if !Succeeds(status) { return status, None, seen, checkedAt; }
      FreshToken(before.tree, before.locks, uuid);
      var lock := Grant(LockKey(target), owner, depthInfinity, timeout, uuid, before.locks, checkedAt);
      granted := Some(lock);
    }

    /** Locking what is not seen to be there creates an empty file, or empties the one that is. */
    method CreateIfMissing(ghost before: Moment, view: View, target: DavTarget, path: Path, ghost checkedAt: nat)
      returns (status: Status, ghost seen: Seen)
      requires disk.Valid() && WellParsed(target) && disk.tree == before.tree
      requires AimedPath(before.tree, view, target) == Some(path) && path != []
      requires Unhindered(before, LockKey(target), [], checkedAt)
      modifies disk
      ensures disk.Valid() && disk.faults >= old(disk.faults)
      ensures GuardedStep(before, Here(), view, {target}, [], checkedAt)
      ensures status in {Ok, Created} || Refuses(status)
      ensures seen.there ==> Followed(before.tree, path).Some?
      ensures Succeeds(status) ==>
                if disk.faults == old(disk.faults) then
                  disk.log == old(disk.log) && seen.there == Followed(before.tree, path).Some?
                else !seen.there && disk.FailedLast(old(disk.faults), Looking(path))
      ensures Succeeds(status) ==> status == (if seen.there then Ok else Created)
      ensures if !Succeeds(status) || seen.there then disk.tree == before.tree
              else exists end :: OpensAt(before.tree, path, end) && CanOpen(before.tree, end)
                                 && disk.tree == Emptied(before.tree, end)
      ensures Succeeds(status) ==> path in before.tree || IsDir(before.tree, Parent(path))
      ensures disk.faults == old(disk.faults) && !IsLink(before.tree, path) ==>
                Succeeds(status) == (path in before.tree || IsDir(before.tree, Parent(path)))
      ensures disk.faults == old(disk.faults) && !IsLink(before.tree, path) && !Succeeds(status) ==>
                status == Conflicting
    {
      hide SameOutside, Guarded, SeparateRoots, ClearWay, WellParsed, AimedPath, Blocking, Live, FileTree.WellFormed,
        Followed, OpensAt, CanOpen, Emptied;
      Idle(before.tree, view.writable, []);
      AimedInto(before.tree, view, target);
      var existed := disk.Exists(path);
      seen := Seen(existed, false);
      if existed { return Ok, seen; }
      var housed := disk.IsDirectory(Parent(path));
      if !housed { return Conflicting, seen; }
      var made;
      ghost var end;
      made, end := disk.CreateFile(path);
      if made.IoErr? { return IoStatus(made.error), seen; }
      CreatedGuarded(before.tree, end, view, Live(before.locks, checkedAt), [], target);
      status := Created;
    }

    /** LOCK without a body: give the live lock of this token more time. */
    method Renew(token: Bytes, key: Bytes, timeout: nat) returns (granted: Option<LockEntry>, ghost checkedAt: nat)
      requires Sound(table.locks)
      modifies this`clock, table
      ensures Sound(table.locks) && old(clock) <= checkedAt <= clock
      ensures granted.Some? <==> token in Live(old(table.locks), checkedAt) && old(table.locks)[token].Covers(key)
      ensures granted.Some? ==> granted.value.token == token && SameButTime(old(table.locks)[token], granted.value)
      ensures granted.Some? ==>
                granted.value.timeout == timeout && old(clock) + timeout <= granted.value.expiresAt <= clock + timeout
      ensures granted.Some? ==> token in table.locks && table.locks[token] == granted.value
      ensures OnlyGone(old(table.locks) - {token}, table.locks - {token}, clock, {})
      ensures granted.None? ==> OnlyGone(old(table.locks), table.locks, clock, {})
    {
      hide OnlyGone, Sound;
      ghost var locks := table.locks;
      var now := Now();
      var renewedAt := Now();
      checkedAt := now;
      granted := table.Refresh(token, key, timeout, now, renewedAt);
      RenewalIsSound(locks, table.locks, Timed(Call.Refresh(token, key, timeout, renewedAt), now), clock);
    }

    /** The end of LOCK: make the entry and file it. */
    method Grant(key: Bytes, owner: Option<Bytes>, depthInfinity: bool, timeout: nat, uuid: Bytes,
                 ghost locks: Table, ghost checkedAt: nat) returns (lock: LockEntry)
      requires Sound(locks) && table.locks == Live(locks, checkedAt) && checkedAt <= clock
      requires Blocking(Live(locks, checkedAt), key, []) == {} && TOKEN_PREFIX + uuid !in locks
      modifies this`clock, table
      ensures Sound(table.locks) && clock >= old(clock)
      ensures lock.token == TOKEN_PREFIX + uuid && lock.path == key && lock.owner == owner
      ensures lock.depthInfinity == depthInfinity
      ensures lock.timeout == timeout && old(clock) + timeout <= lock.expiresAt <= clock + timeout
      ensures lock.token in table.locks && table.locks[lock.token] == lock
      ensures OnlyGone(locks, table.locks - {lock.token}, clock, {}) && locks - {lock.token} == locks
    {
      var grantedAt := Now();
      lock := LockEntry(TOKEN_PREFIX + uuid, key, owner, depthInfinity, timeout, grantedAt + timeout);
      var storedAt := Now();
      GrantIsSound(locks, checkedAt, storedAt, lock);
      table.Insert(lock, storedAt);
    }

    method Unlock(view: View, target: DavTarget, token: Option<Bytes>) returns (status: Status)
      requires Valid()
      modifies this`clock, table
      ensures Valid() && UnlockOutcome(old(Here()), Here(), view, target, token, status)
    {
      ghost var locks := table.locks;
      if target.root.None? || target.root.value !in view.writable { return Forbidden; }
      if token.None? { return BadRequest; }
      var now := Now();
      var removed := table.Remove(token.value, LockKey(target), now);
      FewerLocksAreSound(locks, table.locks);
      status := if removed then NoContent else Conflicting;
    }
  }
}
