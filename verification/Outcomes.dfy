/**
 What each mutating handler of webdav.rs may make of the state it meets, said about values.
 The folders of the view are taken to be there: the first use of a home makes its folder before
 any of this, also for a request that is then refused.
 */
module Outcomes {
  import opened ByteStrings
  import opened CopyEntry
  import opened DavPath
  import opened Disk
  import opened FileTree
  import opened Locks
  import opened SafePath
  import opened Staging
  import opened Transfer
  import opened Upload
  import opened WriteGuard
  import opened Wrappers

  datatype Status =
    | Ok | Created | NoContent
    | BadRequest | Forbidden | Absent | MethodNotAllowed | Conflicting | PreconditionFailed
    | PayloadTooLarge | Locked | ServerError

  predicate Succeeds(status: Status) {
    status.Ok? || status.Created? || status.NoContent?
  }

  /** An error that has nothing to do with locks or limits. */
  predicate Refuses(status: Status) {
    !Succeeds(status) && status != Locked && status != PayloadTooLarge
  }

  function IoStatus(error: IoError): (status: Status)
    ensures Refuses(status)
  {
    match error
    case NotFound => Absent
    case AlreadyExists => PreconditionFailed
    case PermissionDenied => Forbidden
    case InvalidInput => BadRequest
    case _ => ServerError
  }

  /** The roots a user may read and the roots a user may write. */
  datatype View = View(readable: Roots, writable: Roots)

  /** The bytes of "upload". */
  const UPLOAD: Bytes := [0x75, 0x70, 0x6C, 0x6F, 0x61, 0x64]
  /** The bytes of "stage". */
  const STAGE: Bytes := [0x73, 0x74, 0x61, 0x67, 0x65]
  /** The bytes of "opaquelocktoken:". */
  const TOKEN_PREFIX: Bytes := [
    0x6F, 0x70, 0x61, 0x71, 0x75, 0x65, 0x6C, 0x6F, 0x63, 0x6B, 0x74, 0x6F, 0x6B, 0x65, 0x6E, 0x3A]

  /** Where a write to `target` is aimed, if anywhere. */
  function AimedPath(tree: Tree, view: View, target: DavTarget): Option<Path> {
    if target.root.None? || target.relative == [] || target.root.value !in view.writable then None
    else match Aim(tree, view.writable[target.root.value], target.relative)
      case Success(path) => Some(path)
      case Failure(_) => None
  }

  /** The same, if there is no symbolic link in that place. */
  function WritePath(tree: Tree, view: View, target: DavTarget): Option<Path> {
    if target.root.None? || target.relative == [] || target.root.value !in view.writable then None
    else match ResolveParent(tree, view.writable[target.root.value], target.relative)
      case Success(path) => Some(path)
      case Failure(_) => None
  }

  /** What a readable target leads to, if anything. */
  function ReadPath(tree: Tree, view: View, target: DavTarget): Option<Path> {
    if target.root.None? || target.root.value !in view.readable then None
    else match Resolve(tree, view.readable[target.root.value], target.relative)
      case Success(path) => Some(path)
      case Failure(_) => None
  }

  function SourcePath(tree: Tree, view: View, source: DavTarget, move: bool): Option<Path> {
    if source.relative == [] then None
    else if move then WritePath(tree, view, source)
    else ReadPath(tree, view, source)
  }

  // ---------------------------------------------------------------------------
  // What is refused before locks are looked at, if no call fails
  // ---------------------------------------------------------------------------

  function WriteRefusal(tree: Tree, view: View, target: DavTarget): Option<Status> {
    if target.root.None? || target.relative == [] || target.root.value !in view.writable then Some(Forbidden)
    else if WritePath(tree, view, target).None? then Some(Conflicting)
    else None
  }

  /** PUT may replace a file, MKCOL nothing. */
  function PlaceRefusal(tree: Tree, view: View, target: DavTarget, folder: bool): Option<Status> {
    match WriteRefusal(tree, view, target)
    case Some(status) => Some(status)
    case None =>
      var path := WritePath(tree, view, target).value;
      if IsDir(tree, path) || (folder && path in tree) then Some(MethodNotAllowed)
      else if path != [] && !IsDir(tree, Parent(path)) then Some(Conflicting)
      else None
  }

  /** The source of a MOVE, or what is to be deleted. */
  function EntryRefusal(tree: Tree, view: View, target: DavTarget): Option<Status> {
    if target.root.None? || target.relative == [] || target.root.value !in view.writable then Some(Forbidden)
    else
      var path := WritePath(tree, view, target);
      if path.None? || path.value !in tree then Some(Absent) else None
  }

  /** The source of a COPY. */
  function ReadRefusal(tree: Tree, view: View, target: DavTarget): Option<Status> {
    if target.root.None? || target.relative == [] || target.root.value !in view.readable then Some(Forbidden)
    else if ReadPath(tree, view, target).None? then Some(Absent)
    else None
  }

  function SourceRefusal(tree: Tree, view: View, source: DavTarget, move: bool): Option<Status> {
    if move then EntryRefusal(tree, view, source) else ReadRefusal(tree, view, source)
  }

  function EndsRefusal(tree: Tree, view: View, source: DavTarget, destination: DavTarget, move: bool): Option<Status> {
    if source.root.None? || source.relative == [] || destination.root.None? || destination.relative == [] then
      Some(Forbidden)
    else
      var refusal := SourceRefusal(tree, view, source, move);
      if refusal.Some? then refusal
      else match WriteRefusal(tree, view, destination)
        case Some(status) => Some(status)
        case None =>
          var from, to := SourcePath(tree, view, source, move).value, WritePath(tree, view, destination).value;
          if to != [] && !IsDir(tree, Parent(to)) then Some(Conflicting)
          else if from == to || (IsDir(tree, from) && from <= to) then Some(Forbidden)
          else None
  }

  // ---------------------------------------------------------------------------
  // One step
  // ---------------------------------------------------------------------------

  /** The state of the server between two steps. */
  datatype Moment = Moment(tree: Tree, locks: Table, clock: nat, faults: nat, log: Log)

  /** Clock and faults only grow; the lock table is last asked within the step. */
  ghost predicate Stepped(before: Moment, after: Moment, checkedAt: nat) {
    before.clock <= checkedAt <= after.clock && before.faults <= after.faults
  }

  /** No call failed. */
  ghost predicate Calm(before: Moment, after: Moment) {
    after.faults == before.faults
  }

  /** This was the last call to fail. */
  ghost predicate FailedAt(before: Moment, after: Moment, fault: Fault) {
    after.faults > before.faults && after.faults - 1 in after.log && after.log[after.faults - 1] == fault
  }

  /** The last call to fail was that of removing `path`, or the look at it just before. */
  ghost predicate RemovalFailedAt(before: Moment, after: Moment, path: Path) {
    FailedAt(before, after, Removal(path)) || FailedAt(before, after, Looking(path))
  }

  /**
   What the calls that hide their own failure answered: `exists` on the place to be written,
   `is_dir` on the source of a COPY or MOVE.
   */
  datatype Seen = Seen(there: bool, directory: bool)

  /** "Yes" is always right; "no" is right unless a call failed. */
  ghost predicate Honest(before: Moment, after: Moment, fact: bool, answer: bool) {
    (answer ==> fact) && (fact && Calm(before, after) ==> answer)
  }

  /** The place to be written: a symbolic link only if the check for one failed, and there if it was seen. */
  ghost predicate PlaceSeen(before: Moment, after: Moment, path: Path, seen: Seen) {
    && Honest(before, after, IsLink(before.tree, path), false)
    && Honest(before, after, Followed(before.tree, path).Some?, seen.there)
  }

  /** The write guard for these targets, and the locks that were live at the check. */
  ghost predicate GuardedStep(before: Moment, after: Moment, view: View, targets: set<DavTarget>, tokens: seq<Bytes>,
                              checkedAt: nat) {
    && SeparateRoots(view.writable)
    && (forall target | target in targets :: ClearWay(before.tree, view.writable, target)) ==>
      Guarded(before.tree, after.tree, view.writable, Live(before.locks, checkedAt), tokens)
  }

  ghost predicate Unhindered(before: Moment, key: Bytes, tokens: seq<Bytes>, checkedAt: nat) {
    Blocking(Live(before.locks, checkedAt), key, tokens) == {}
  }

  ghost predicate Sound(locks: Table) {
    Exclusive(locks) && FiledByToken(locks)
  }

  /** Every lock of `after` was there before, under the same token. */
  ghost predicate NoNewLocks(before: Table, after: Table) {
    forall token | token in after :: token in before && after[token] == before[token]
  }

  /** Apart from that, only locks that had expired by `now` are gone, and locks at or below one of the keys. */
  ghost predicate OnlyGone(before: Table, after: Table, now: nat, keys: set<Bytes>) {
    && NoNewLocks(before, after)
    && forall token | token in before && before[token].expiresAt > now && token !in after ::
      exists key :: key in keys && AtOrBelow(key, before[token])
  }

  ghost predicate NoneUnder(locks: Table, key: Bytes) {
    forall token | token in locks :: !AtOrBelow(key, locks[token])
  }

  ghost predicate SameButTime(before: LockEntry, after: LockEntry) {
    after == before.(timeout := after.timeout, expiresAt := after.expiresAt)
  }

  // ---------------------------------------------------------------------------
  // PUT and MKCOL
  // ---------------------------------------------------------------------------

  /** A place PUT may fill: no directory, but in one. */
  predicate Fillable(tree: Tree, path: Option<Path>) {
    path.Some? && path.value != [] && !IsDir(tree, path.value) && IsDir(tree, Parent(path.value))
  }

  /** A whole body within the limit, as far as a saturating counter can tell. */
  ghost predicate Accepted(declared: Option<nat>, body: Body, limit: nat) {
    (declared.Some? ==> declared.value <= limit) && Complete(body) && (limit < U64_MAX ==> |Received(body)| <= limit)
  }

  /** A body is stored, or refused where it breaks off or where it has grown too large. */
  ghost predicate BodyAnswered(body: Body, limit: nat, status: Status) {
    || status in {Created, NoContent}
    || (status == BadRequest && exists k :: BreaksOff(body, limit, k))
    || (status == PayloadTooLarge && exists k :: GrowsTooLarge(body, limit, k))
  }

  /** As before, or, if removing it is the call that failed, with the staging file beside the target. */
  ghost predicate LeftAsItWas(before: Moment, after: Moment, path: Option<Path>, uuid: Bytes) {
    after.tree == before.tree
    || (&& path.Some? && path.value != []
        && var staging := StagingPath(path.value, UPLOAD, uuid);
           && staging !in before.tree && OnlyStaged(before.tree, after.tree, staging)
           && FailedAt(before, after, Removal(staging)))
  }

  ghost predicate PutAnswered(tree: Tree, view: View, target: DavTarget, free: bool, declared: Option<nat>, body: Body,
                              limit: nat, status: Status) {
    match PlaceRefusal(tree, view, target, false)
    case Some(refusal) => status == refusal
    case None =>
      if !free then status == Locked
      else if declared.Some? && declared.value > limit then status == PayloadTooLarge
      else BodyAnswered(body, limit, status)
  }

  ghost predicate PutOutcome(before: Moment, after: Moment, view: View, target: DavTarget, tokens: seq<Bytes>,
                             declared: Option<nat>, body: Body, limit: nat, uuid: Bytes, status: Status,
                             seen: Seen, checkedAt: nat) {
    var path := AimedPath(before.tree, view, target);
    var free := Unhindered(before, LockKey(target), tokens, checkedAt);
    && Stepped(before, after, checkedAt) && GuardedStep(before, after, view, {target}, tokens, checkedAt)
    && OnlyGone(before.locks, after.locks, after.clock, {})
    && (Succeeds(status) ==> status in {Created, NoContent})
    && (if status in {Created, NoContent} then
          && Fillable(before.tree, path) && free && Accepted(declared, body, limit)
          && after.tree == before.tree[path.value := File(Received(body))]
          && PlaceSeen(before, after, path.value, seen) && (status == NoContent <==> seen.there)
        else LeftAsItWas(before, after, path, uuid))
    && (Calm(before, after) && Fillable(before.tree, WritePath(before.tree, view, target)) && free ==>
          (Accepted(declared, body, limit) && |Received(body)| <= limit ==> status in {Created, NoContent}))
    && (Calm(before, after) ==> PutAnswered(before.tree, view, target, free, declared, body, limit, status))
    && (status == Locked ==> !free)
    && (status == PayloadTooLarge ==> (declared.Some? && declared.value > limit) || |Received(body)| > limit)
  }

  function MkcolAnswer(tree: Tree, view: View, target: DavTarget, free: bool): Status {
    match PlaceRefusal(tree, view, target, true)
    case Some(refusal) => refusal
    case None => if free then Created else Locked
  }

  ghost predicate MkcolOutcome(before: Moment, after: Moment, view: View, target: DavTarget, tokens: seq<Bytes>,
                               status: Status, checkedAt: nat) {
    var path := WritePath(before.tree, view, target);
    var free := Unhindered(before, LockKey(target), tokens, checkedAt);
    && Stepped(before, after, checkedAt) && GuardedStep(before, after, view, {target}, tokens, checkedAt)
    && OnlyGone(before.locks, after.locks, after.clock, {})
    && (Succeeds(status) ==> status == Created)
    && (if status == Created then
          && Fillable(before.tree, path) && path.value !in before.tree && free
          && after.tree == before.tree[path.value := Directory]
        else after.tree == before.tree)
    && (Calm(before, after) && Fillable(before.tree, path) && path.value !in before.tree && free ==> status == Created)
    && (Calm(before, after) ==> status == MkcolAnswer(before.tree, view, target, free))
    && (status == Locked ==> !free)
  }

  // ---------------------------------------------------------------------------
  // DELETE
  // ---------------------------------------------------------------------------

  function DeleteAnswer(tree: Tree, view: View, target: DavTarget, free: bool): Status {
    match EntryRefusal(tree, view, target)
    case Some(refusal) => refusal
    case None => if free then NoContent else Locked
  }

  ghost predicate DeleteOutcome(before: Moment, after: Moment, view: View, target: DavTarget, tokens: seq<Bytes>,
                                status: Status, checkedAt: nat) {
    var path := WritePath(before.tree, view, target);
    var free := Unhindered(before, LockKey(target), tokens, checkedAt);
    && Stepped(before, after, checkedAt) && GuardedStep(before, after, view, {target}, tokens, checkedAt)
    && OnlyGone(before.locks, after.locks, after.clock, if status == NoContent then {LockKey(target)} else {})
    && (Succeeds(status) ==> status == NoContent)
    && (if status == NoContent then
          && path.Some? && path.value in before.tree && free
          && after.tree == Without(before.tree, path.value) && NoneUnder(after.locks, LockKey(target))
        else
          after.tree == before.tree
          || (&& path.Some? && free && Pruned(before.tree, after.tree, path.value)
              && FailedAt(before, after, Removal(path.value))))
    && (Calm(before, after) && path.Some? && path.value in before.tree && free ==> status == NoContent)
    && (Calm(before, after) ==> status == DeleteAnswer(before.tree, view, target, free))
    && (status == Locked ==> !free)
  }

  // ---------------------------------------------------------------------------
  // COPY and MOVE
  // ---------------------------------------------------------------------------

  /** What became of a COPY or MOVE: refused before anything was written, or carried to some point. */
  datatype Report = Refused | Attempted(source: Path, destination: Path, staging: Path, swapped: bool)

  /** What stops a COPY or MOVE: a lock that blocks the destination, or the source of a MOVE. */
  ghost predicate Hindered(live: Table, source: Bytes, destination: Bytes, tokens: seq<Bytes>, move: bool) {
    Blocking(live, destination, tokens) != {} || (move && Blocking(live, source, tokens) != {})
  }

  /** The two ends of a COPY or MOVE, resolved and found to be different. */
  ghost predicate Parted(tree: Tree, view: View, source: DavTarget, destination: DavTarget, move: bool,
                         from: Path, to: Path) {
    && Some(from) == SourcePath(tree, view, source, move) && Some(to) == AimedPath(tree, view, destination)
    && (from == [] || from in tree) && !IsLink(tree, from) && (move ==> from != [])
    && to != [] && from != to && IsDir(tree, Parent(to))
  }

  /** What was seen of them: no directory that holds the destination, and nothing at it that may not be replaced. */
  ghost predicate LetThrough(before: Moment, after: Moment, from: Path, to: Path, overwrite: bool, seen: Seen) {
    && Honest(before, after, IsDir(before.tree, from), seen.directory) && !(seen.directory && from <= to)
    && PlaceSeen(before, after, to, seen) && (seen.there ==> overwrite)
  }

  /** A MOVE within one device renames. */
  predicate Renames(devices: Devices, from: Path, to: Path, move: bool)
    requires to != [] && (move ==> from != [])
  {
    move && SameDevice(devices, from, to)
  }

  /** A COPY or MOVE that may go ahead, the locks apart. */
  ghost predicate Possible(devices: Devices, tree: Tree, view: View, source: DavTarget, destination: DavTarget,
                           overwrite: bool, move: bool) {
    var from, to := SourcePath(tree, view, source, move), WritePath(tree, view, destination);
    && from.Some? && to.Some? && Parted(tree, view, source, destination, move, from.value, to.value)
    && !(from.value <= to.value) && (overwrite || to.value !in tree)
    && (Renames(devices, from.value, to.value, move) || Copyable(tree, from.value))
  }

  /** A MOVE onto the folder its source is in, across devices, takes away what it has just brought. */
  ghost predicate DevoursItself(devices: Devices, tree: Tree, view: View, source: DavTarget, destination: DavTarget,
                                move: bool) {
    var from, to := SourcePath(tree, view, source, move), WritePath(tree, view, destination);
    && from.Some? && to.Some? && from.value != [] && to.value != []
    && move && !Renames(devices, from.value, to.value, move) && to.value <= from.value
  }

  /** The staging entry is only left if clearing it away failed, or if its way back is gone. */
  ghost predicate StagingCleared(before: Moment, after: Moment, from: Path, to: Path, staging: Path, renamed: bool)
    requires renamed ==> from != []
  {
    staging in after.tree ==>
      if renamed then
        FailedAt(before, after, Renaming(staging, from)) || (to <= from && !IsDir(after.tree, Parent(from)))
      else RemovalFailedAt(before, after, staging)
  }

  /**
   The old destination is replaced last. Unless the swap succeeds, nothing but the staging path
   has changed; or the source could be brought, and the first call to fail, those apart that the
   program takes for an answer, was one of the swap.
   */
  ghost predicate KeptUntilSwap(before: Moment, after: Moment, from: Path, to: Path, staging: Path, renamed: bool) {
    || Untouched(before.tree, after.tree, from, staging, renamed)
    || (&& !(from <= to) && (renamed || Copyable(before.tree, from))
        && exists first :: OnlyLooked(before.log, before.faults, after.log, first)
                           && SwapFailed(after.log, first, after.faults, staging, to))
  }

  /** Everything about the trees, once a COPY or MOVE has started to write. */
  ghost predicate Brought(devices: Devices, before: Moment, after: Moment, from: Path, to: Path, staging: Path,
                          move: bool, swapped: bool) {
    && EndsFit(before.tree, from, to, staging) && (move ==> from != [])
    && var renamed := Renames(devices, from, to, move);
    && Fits(before.tree, after.tree, from, to, staging, move, renamed, swapped)
    && Tidy(before.tree, after.tree, from, staging, renamed)
    && StagingCleared(before, after, from, to, staging, renamed)
    && (!swapped && Calm(before, after) ==> after.tree == before.tree)
    && (!swapped && staging !in after.tree && to !in before.tree ==> after.tree == before.tree)
    && (!swapped ==> KeptUntilSwap(before, after, from, to, staging, renamed))
    && (from <= to ==> !swapped && Without(after.tree, staging) == before.tree)
  }

  /** And what the answer says about it. */
  ghost predicate CarriedOut(devices: Devices, before: Moment, after: Moment, from: Path, to: Path, staging: Path,
                             move: bool, swapped: bool, status: Status, seen: Seen) {
    && Brought(devices, before, after, from, to, staging, move, swapped)
    && var renamed := Renames(devices, from, to, move);
    if Succeeds(status) then
      && swapped && status == (if seen.there then NoContent else Created)
      && (renamed || Copyable(before.tree, from))
      && (move && Incomparable(from, to) ==> Sub(after.tree, from) == map[])
    else
      && (swapped ==> move && !renamed && (RemovalFailedAt(before, after, from) || to <= from))
      && (!swapped && Calm(before, after) && !(from <= to) && !renamed ==>
            status == IoStatus(CopyError(before.tree, from)))
  }

  /** The keys whose locks a successful COPY or MOVE drops. */
  function ForgottenKeys(source: DavTarget, destination: DavTarget, move: bool, status: Status): set<Bytes> {
    (if Succeeds(status) && move then {LockKey(source)} else {})
    + (if status == NoContent then {LockKey(destination)} else {})
  }

  /** All that can keep a COPY or MOVE from starting to write, if no call fails. */
  ghost predicate TurnedAway(tree: Tree, view: View, source: DavTarget, destination: DavTarget, hindered: bool,
                             overwrite: bool, move: bool) {
    || EndsRefusal(tree, view, source, destination, move).Some? || hindered
    || (!overwrite && WritePath(tree, view, destination).Some? && WritePath(tree, view, destination).value in tree)
  }

  ghost predicate TransferAnswered(tree: Tree, view: View, source: DavTarget, destination: DavTarget, hindered: bool,
                                   overwrite: bool, move: bool, status: Status) {
    match EndsRefusal(tree, view, source, destination, move)
    case Some(refusal) => status == refusal
    case None =>
      && (hindered ==> status == Locked)
      && (!hindered && !overwrite && WritePath(tree, view, destination).value in tree ==> status == PreconditionFailed)
  }

  ghost predicate TransferOutcome(devices: Devices, before: Moment, after: Moment, view: View, source: DavTarget,
                                  destination: DavTarget, tokens: seq<Bytes>, overwrite: bool, move: bool, uuid: Bytes,
                                  status: Status, report: Report, seen: Seen, checkedAt: nat) {
    var live := Live(before.locks, checkedAt);
    var hindered := Hindered(live, LockKey(source), LockKey(destination), tokens, move);
    && Stepped(before, after, checkedAt)
    && GuardedStep(before, after, view, if move then {source, destination} else {destination}, tokens, checkedAt)
    && OnlyGone(before.locks, after.locks, after.clock, ForgottenKeys(source, destination, move, status))
    && (forall key | key in ForgottenKeys(source, destination, move, status) :: NoneUnder(after.locks, key))
    && (match report
        case Refused =>
          && after.tree == before.tree && !Succeeds(status)
          && (Calm(before, after) ==> TurnedAway(before.tree, view, source, destination, hindered, overwrite, move))
        case Attempted(from, to, staging, swapped) =>
          && !hindered && Parted(before.tree, view, source, destination, move, from, to)
          && LetThrough(before, after, from, to, overwrite, seen)
          && staging == StagingPath(to, STAGE, uuid) && staging !in before.tree
          && CarriedOut(devices, before, after, from, to, staging, move, swapped, status, seen))
    && (Calm(before, after) && !hindered && !DevoursItself(devices, before.tree, view, source, destination, move) ==>
          (Possible(devices, before.tree, view, source, destination, overwrite, move) <==> Succeeds(status)))
    && (Calm(before, after) ==>
          TransferAnswered(before.tree, view, source, destination, hindered, overwrite, move, status))
    && (status == Locked ==> hindered)
  }

  // ---------------------------------------------------------------------------
  // LOCK and UNLOCK
  // ---------------------------------------------------------------------------

  /** When LOCK has something to give: a new lock nothing blocks, or a live one of that token to renew. */
  ghost predicate Grantable(before: Moment, path: Option<Path>, key: Bytes, tokens: seq<Bytes>, hasBody: bool,
                            checkedAt: nat) {
    && path.Some? && path.value != []
    && if hasBody then
      Unhindered(before, key, [], checkedAt) && (path.value in before.tree || IsDir(before.tree, Parent(path.value)))
    else
      && tokens != [] && tokens[0] in Live(before.locks, checkedAt) && before.locks[tokens[0]].Covers(key)
  }

  /**
   A new lock under a token not in the table. What was not seen to be there has been created,
   empty; if it was there, which takes a failing `exists`, it has been emptied.
   */
  ghost predicate NewLock(before: Moment, after: Moment, path: Option<Path>, key: Bytes, owner: Option<Bytes>,
                          depthInfinity: bool, uuid: Bytes, status: Status, seen: Seen, lock: LockEntry) {
    && path.Some? && lock.token == TOKEN_PREFIX + uuid && lock.token !in before.locks
    && lock.path == key && lock.owner == owner && lock.depthInfinity == depthInfinity
    && PlaceSeen(before, after, path.value, seen) && status == (if seen.there then Ok else Created)
    && (Followed(before.tree, path.value).Some? ==> (seen.there <==> !FailedAt(before, after, Looking(path.value))))
    && if seen.there then after.tree == before.tree
       else exists end :: OpensAt(before.tree, path.value, end) && CanOpen(before.tree, end)
                          && after.tree == Emptied(before.tree, end)
  }

  /** The live lock of the first token, with a new time. */
  ghost predicate RenewedLock(before: Moment, after: Moment, tokens: seq<Bytes>, status: Status, lock: LockEntry) {
    && tokens != [] && lock.token == tokens[0] && lock.token in before.locks
    && SameButTime(before.locks[lock.token], lock) && after.tree == before.tree && status == Ok
  }

  /** Why LOCK gives nothing. */
  function LockRefusal(tree: Tree, view: View, target: DavTarget, tokens: seq<Bytes>, hasBody: bool, free: bool): Status
  {
    match WriteRefusal(tree, view, target)
    case Some(refusal) => refusal
    case None =>
      if !hasBody then (if tokens == [] then BadRequest else PreconditionFailed)
      else if free then Conflicting else Locked
  }

  ghost predicate LockOutcome(before: Moment, after: Moment, view: View, target: DavTarget, tokens: seq<Bytes>,
                              hasBody: bool, depthInfinity: bool, owner: Option<Bytes>, timeout: nat, uuid: Bytes,
                              status: Status, granted: Option<LockEntry>, seen: Seen, checkedAt: nat) {
    var path, written := AimedPath(before.tree, view, target), WritePath(before.tree, view, target);
    var key := LockKey(target);
    && Stepped(before, after, checkedAt) && GuardedStep(before, after, view, {target}, [], checkedAt)
    && (match granted
        case None =>
          && !Succeeds(status) && after.tree == before.tree && OnlyGone(before.locks, after.locks, after.clock, {})
        case Some(lock) =>
          && Grantable(before, path, key, tokens, hasBody, checkedAt)
          && (if hasBody then NewLock(before, after, path, key, owner, depthInfinity, uuid, status, seen, lock)
              else RenewedLock(before, after, tokens, status, lock))
          && lock.timeout == timeout && before.clock + timeout <= lock.expiresAt <= after.clock + timeout
          && lock.token in after.locks && after.locks[lock.token] == lock
          && OnlyGone(before.locks - {lock.token}, after.locks - {lock.token}, after.clock, {}))
    && (Calm(before, after) && Grantable(before, written, key, tokens, hasBody, checkedAt) ==> granted.Some?)
    && (Calm(before, after) && granted.Some? ==> WriteRefusal(before.tree, view, target) == None)
    && (Calm(before, after) && granted.None? ==>
          status == LockRefusal(before.tree, view, target, tokens, hasBody, Unhindered(before, key, [], checkedAt)))
    && (status == Locked ==> hasBody && !Unhindered(before, key, [], checkedAt))
  }

  ghost predicate UnlockOutcome(before: Moment, after: Moment, view: View, target: DavTarget, token: Option<Bytes>,
                                status: Status) {
    && before.clock <= after.clock && after.tree == before.tree && Calm(before, after)
    && (status == NoContent <==>
          (&& target.root.Some? && target.root.value in view.writable && token.Some?
           && token.value in Live(before.locks, after.clock) && before.locks[token.value].path == LockKey(target)))
    && (if status == NoContent then
          token.value !in after.locks && OnlyGone(before.locks - {token.value}, after.locks, after.clock, {})
        else
          && OnlyGone(before.locks, after.locks, after.clock, {})
          && status == if target.root.None? || target.root.value !in view.writable then Forbidden
                       else if token.None? then BadRequest else Conflicting)
  }
}
