/** Whole runs of the WebDAV server: any requests, in any order, over a disk that may fail at every call. */
module Serving {
  import opened ByteStrings
  import opened DavPath
  import opened Disk
  import opened FileTree
  import opened HandlerProofs
  import opened Locks
  import opened Outcomes
  import opened Timeouts
  import opened Upload
  import opened WebDav
  import opened WriteGuard
  import opened Wrappers

  /** A request, with the raw path of its URL; `destination` is the path of a Destination header on this host. */
  datatype Request =
    | PutRequest(view: View, path: Bytes, tokens: seq<Bytes>, declared: Option<nat>, body: Body)
    | MkcolRequest(view: View, path: Bytes, tokens: seq<Bytes>)
    | DeleteRequest(view: View, path: Bytes, tokens: seq<Bytes>)
    | TransferRequest(view: View, path: Bytes, destination: Option<Bytes>, tokens: seq<Bytes>, overwrite: bool,
                      move: bool)
    | LockRequest(view: View, path: Bytes, tokens: seq<Bytes>, hasBody: bool, depthInfinity: bool,
                  owner: Option<Bytes>, timeout: Option<Bytes>)
    | UnlockRequest(view: View, path: Bytes, token: Option<Bytes>)

  /** The tokens a request presents to the write guard. */
  function Presented(request: Request): seq<Bytes> {
    match request
    case LockRequest(_, _, _, _, _, _, _) => []
    case UnlockRequest(_, _, _) => []
    case _ => request.tokens
  }

  function DestinationOf(request: Request): Result<DavTarget, PathError>
    requires request.TransferRequest?
  {
    if request.destination.None? then Failure(InvalidPath) else FromPath(request.destination.value)
  }

  /** The targets whose places a request may change. */
  function Targets(request: Request): set<DavTarget> {
    match FromPath(request.path)
    case Failure(_) => {}
    case Success(target) =>
      match request
      case UnlockRequest(_, _, _) => {}
      case TransferRequest(_, _, _, _, _, move) =>
        (if move then {target} else {})
        + (if DestinationOf(request).Success? then {DestinationOf(request).value} else {})
      case _ => {target}
  }

  /** One handled request, the moments around it, and what the handler said. */
  datatype Record = Record(
    request: Request, uuid: Bytes, before: Moment, after: Moment,
    status: Status, granted: Option<LockEntry>, report: Report, seen: Seen, checkedAt: nat)

  function PathStatus(error: PathError): (status: Status)
    ensures !Succeeds(status)
  {
    if error == PathError.NotFound then Absent else BadRequest
  }

  /** COPY and MOVE refuse a target without a name before they look at the Destination header. */
  function DestinationStatus(request: Request, target: DavTarget): Status
    requires request.TransferRequest? && DestinationOf(request).Failure?
  {
    if target.root.None? || target.relative == [] then Forbidden else PathStatus(DestinationOf(request).error)
  }

  /** What became of a request whose target could be read is what its handler promises. */
  ghost predicate Handled(devices: Devices, limit: nat, record: Record, target: DavTarget) {
    var before, after, status, uuid := record.before, record.after, record.status, record.uuid;
    var seen, at := record.seen, record.checkedAt;
    match record.request
    case PutRequest(view, _, tokens, declared, body) =>
      PutOutcome(before, after, view, target, tokens, declared, body, limit, uuid, status, seen, at)
    case MkcolRequest(view, _, tokens) => MkcolOutcome(before, after, view, target, tokens, status, at)
    case DeleteRequest(view, _, tokens) => DeleteOutcome(before, after, view, target, tokens, status, at)
    case TransferRequest(view, _, _, tokens, overwrite, move) =>
      var destination := DestinationOf(record.request);
      if destination.Failure? then after == before && status == DestinationStatus(record.request, target)
      else TransferOutcome(devices, before, after, view, target, destination.value, tokens, overwrite, move, uuid,
                           status, record.report, seen, at)
    case LockRequest(view, _, tokens, hasBody, depthInfinity, owner, timeout) =>
      LockOutcome(before, after, view, target, tokens, hasBody, depthInfinity, owner, LockTimeout(timeout), uuid,
                  status, record.granted, seen, at)
    case UnlockRequest(view, _, token) => UnlockOutcome(before, after, view, target, token, status)
  }

  ghost predicate Happened(devices: Devices, limit: nat, record: Record) {
    && WellFormed(record.before.tree) && Sound(record.before.locks)
    && Unused(record.before.tree, record.before.locks, record.uuid)
    && match FromPath(record.request.path)
       case Failure(error) => record.after == record.before && record.status == PathStatus(error)
       case Success(target) => Handled(devices, limit, record, target)
  }

  /** The records of a run follow one another, in trees, locks, clock and faults, from `start` to `end`. */
  ghost predicate Chained(history: seq<Record>, start: Moment, end: Moment) {
    if history == [] then start == end
    else history[0].before == start && Chained(history[1..], history[0].after, end)
  }

  lemma ChainedNothing(start: Moment)
    ensures Chained([], start, start)
  {
  }

  lemma {:induction false} ChainedAppend(history: seq<Record>, record: Record, start: Moment)
    requires Chained(history, start, record.before)
    ensures Chained(history + [record], start, record.after)
  {
    if history != [] {
      ChainedAppend(history[1..], record, history[0].after);
      assert (history + [record])[1..] == history[1..] + [record];
    } else {
      assert (history + [record])[1..] == [];
    }
  }

  // ---------------------------------------------------------------------------
  // A UUID that occurs nowhere
  // ---------------------------------------------------------------------------

  /** As long as the longest name on the disk, and the longest token and path of a lock. */
  ghost predicate Longest(tree: Tree, locks: Table, length: nat) {
    && (forall p | p in tree :: forall k | 0 <= k < |p| :: |p[k]| <= length)
    && (forall token | token in locks :: |token| <= length && |locks[token].path| <= length)
  }

  lemma LongIsUnused(tree: Tree, locks: Table, uuid: Bytes)
    requires |uuid| > 0 && Longest(tree, locks, |uuid| - 1)
    ensures Unused(tree, locks, uuid)
  {
    forall p, k | p in tree && 0 <= k < |p| ensures !OccursIn(uuid, p[k]) {}
  }

  method LongestName(path: Path, least: nat) returns (length: nat)
    ensures length >= least && forall k | 0 <= k < |path| :: |path[k]| <= length
  {
    length := least;
    for i := 0 to |path|
      invariant length >= least && forall k | 0 <= k < i :: |path[k]| <= length
    {
      if |path[i]| > length { length := |path[i]|; }
    }
  }

  method LongestOnDisk(disk: Disk) returns (length: nat)
    ensures forall p | p in disk.tree :: forall k | 0 <= k < |p| :: |p[k]| <= length
  {
    var paths := disk.tree.Keys;
    length := 0;
    while paths != {}
      invariant paths <= disk.tree.Keys
      invariant forall p | p in disk.tree && p !in paths :: forall k | 0 <= k < |p| :: |p[k]| <= length
      decreases paths
    {
      var p :| p in paths;
      length := LongestName(p, length);
      paths := paths - {p};
    }
  }

  method LongestInTable(table: LockTable, least: nat) returns (length: nat)
    ensures length >= least
    ensures forall token | token in table.locks :: |token| <= length && |table.locks[token].path| <= length
  {
    var tokens := table.locks.Keys;
    length := least;
    while tokens != {}
      invariant tokens <= table.locks.Keys && length >= least
      invariant forall token | token in table.locks && token !in tokens ::
                  |token| <= length && |table.locks[token].path| <= length
      decreases tokens
    {
      var token :| token in tokens;
      length := LongestName([token, table.locks[token].path], length);
      assert |[token, table.locks[token].path][0]| <= length && |[token, table.locks[token].path][1]| <= length;
      tokens := tokens - {token};
    }
  }

  /** Any value that occurs nowhere may be drawn; there always is one. */
  method FreshUuid(disk: Disk, table: LockTable) returns (uuid: Bytes)
    ensures Unused(disk.tree, table.locks, uuid)
  {
    uuid := *;
    if !Unused(disk.tree, table.locks, uuid) {
      var length := LongestOnDisk(disk);
      length := LongestInTable(table, length);
      uuid := seq(length + 1, _ => ZERO);
      LongIsUnused(disk.tree, table.locks, uuid);
    }
  }

  // ---------------------------------------------------------------------------
  // Serving
  // ---------------------------------------------------------------------------

  /** COPY and MOVE, with the Destination header. */
  method HandleTransfer(server: Server, request: Request, target: DavTarget, uuid: Bytes)
    returns (status: Status, ghost report: Report, ghost seen: Seen, ghost checkedAt: nat)
    requires server.Valid() && request.TransferRequest? && WellParsed(target)
    requires Unused(server.disk.tree, server.table.locks, uuid)
    modifies server`clock, server.disk, server.table
    ensures server.Valid()
    ensures Handled(server.disk.devices, server.maxUpload,
                    Record(request, uuid, old(server.Here()), server.Here(), status, None, report, seen, checkedAt),
                    target)
  {
    hide TransferOutcome, WellParsed, Unused, Sound;
    report, seen, checkedAt := Refused, Seen(false, false), server.clock;
    if request.destination.None? {
      status := if target.root.None? || target.relative == [] then Forbidden else BadRequest;
      return;
    }
    var parsed := ParsePath(request.destination.value);
    if parsed.Failure? {
      status := PathStatus(parsed.error);
      if target.root.None? || target.relative == [] { status := Forbidden; }
      return;
    }
    ParsedIsWellParsed(request.destination.value);
    status, report, seen, checkedAt := server.CopyOrMove(request.view, target, parsed.value, request.tokens,
                                                         request.overwrite, request.move, uuid);
  }

  /** `handle` of webdav.rs, for the methods that change something. */
  method Handle(server: Server, request: Request) returns (status: Status, ghost record: Record)
    requires server.Valid()
    modifies server`clock, server.disk, server.table
    ensures server.Valid()
    ensures record.request == request && record.status == status
    ensures record.before == old(server.Here()) && record.after == server.Here()
    ensures Happened(server.disk.devices, server.maxUpload, record)
  {
    hide PutOutcome, MkcolOutcome, DeleteOutcome, TransferOutcome, LockOutcome, UnlockOutcome, WellParsed, Unused,
      Sound;
    ghost var before := server.Here();
    ghost var checkedAt := server.clock;
    ghost var report := Refused;
    ghost var seen := Seen(false, false);
    var granted := None;
    var uuid := FreshUuid(server.disk, server.table);
    var parsed := ParsePath(request.path);
    if parsed.Failure? {
      status := PathStatus(parsed.error);
      return status, Record(request, uuid, before, server.Here(), status, granted, report, seen, checkedAt);
    }
    var target := parsed.value;
    ParsedIsWellParsed(request.path);
    match request {
      case PutRequest(view, _, tokens, declared, body) =>
        status, seen, checkedAt := server.Put(view, target, tokens, declared, body, uuid);
      case MkcolRequest(view, _, tokens) =>
        status, checkedAt := server.Mkcol(view, target, tokens);
      case DeleteRequest(view, _, tokens) =>
        status, checkedAt := server.Delete(view, target, tokens);
      case TransferRequest(view, _, destination, tokens, overwrite, move) =>
        status, report, seen, checkedAt := HandleTransfer(server, request, target, uuid);
      case LockRequest(view, _, tokens, hasBody, depthInfinity, owner, timeout) =>
        status, granted, seen, checkedAt :=
          server.Lock(view, target, tokens, hasBody, depthInfinity, owner, timeout, uuid);
      case UnlockRequest(view, _, token) =>
        status := server.Unlock(view, target, token);
    }
    record := Record(request, uuid, before, server.Here(), status, granted, report, seen, checkedAt);
  }

  /** In every run, every step does what its handler promises, from the state the step before has left. */
  method Serve(server: Server, requests: seq<Request>) returns (statuses: seq<Status>, ghost history: seq<Record>)
    requires server.Valid()
    modifies server`clock, server.disk, server.table
    ensures server.Valid() && |statuses| == |history| == |requests|
    ensures Chained(history, old(server.Here()), server.Here())
    ensures forall i | 0 <= i < |requests| :: history[i].request == requests[i] && history[i].status == statuses[i]
    ensures forall i | 0 <= i < |requests| :: Happened(server.disk.devices, server.maxUpload, history[i])
  {
    hide *;
    statuses, history := [], [];
    ChainedNothing(server.Here());
    for i := 0 to |requests|
      invariant server.Valid() && |statuses| == |history| == i
      invariant Chained(history, old(server.Here()), server.Here())
      invariant forall j | 0 <= j < i :: history[j].request == requests[j] && history[j].status == statuses[j]
      invariant forall j | 0 <= j < i :: Happened(server.disk.devices, server.maxUpload, history[j])
    {
      var status;
      ghost var record;
      status, record := Handle(server, requests[i]);
      ChainedAppend(history, record, old(server.Here()));
      statuses, history := statuses + [status], history + [record];
    }
  }

  // ---------------------------------------------------------------------------
  // What every run keeps
  // ---------------------------------------------------------------------------

  /**
   Whatever a step created, replaced or removed, and a lock live before the step and still
   live after it covers, the request presented that lock's token, if there is no symbolic
   link on the way to what the request names.
   */
  lemma EveryStepIsGuarded(devices: Devices, limit: nat, record: Record)
    requires Happened(devices, limit, record) && SeparateRoots(record.request.view.writable)
    requires forall target | target in Targets(record.request) ::
               ClearWay(record.before.tree, record.request.view.writable, target)
    ensures Guarded(record.before.tree, record.after.tree, record.request.view.writable,
                    Live(record.before.locks, record.after.clock), Presented(record.request))
    ensures record.before.clock <= record.after.clock
  {
    hide SeparateRoots, ClearWay, Guarded, CarriedOut, LetThrough, Unused, Sound, OnlyGone;
    Idle(record.before.tree, record.request.view.writable, Presented(record.request));
    if FromPath(record.request.path).Success? && record.after.tree != record.before.tree {
      var live, at := Live(record.before.locks, record.after.clock), record.checkedAt;
      FewerLocksAreGuarded(record.before.tree, record.after.tree, record.request.view.writable,
                           Live(record.before.locks, at), record.after.clock, Presented(record.request));
      LiveLater(record.before.locks, at, record.after.clock, [], []);
    }
  }
}
