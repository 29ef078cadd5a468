/** Whole runs of the lock table: exclusivity, and lazy purging as an invisible optimisation. */
module LockRuns {
  import opened ByteStrings
  import opened DavPath
  import opened Locks
  import opened Wrappers

  /** The reference: nothing is ever purged, every question looks at the expiry itself. */
  function Reference(table: Table, event: Timed): Outcome {
    var now := event.at;
    match event.call
    case Conflict(key, tokens) =>
      Outcome(table, Entries(
        set t | t in table && table[t].expiresAt > now && Blocks(table[t], key) && table[t].token !in tokens ::
          table[t]))
    case Discover(key) =>
      Outcome(table, Entries(set t | t in table && table[t].expiresAt > now && table[t].Covers(key) :: table[t]))
    case Insert(lock) => Outcome(table[lock.token := lock], Done)
    case Refresh(token, key, timeout, renewedAt) =>
      if token in table && table[token].expiresAt > now && table[token].Covers(key) then
        var lock := Renewed(table[token], timeout, renewedAt);
        Outcome(table[token := lock], Entry(Some(lock)))
      else Outcome(table, Entry(None))
    case Unlock(token, key) =>
      if token in table && table[token].expiresAt > now && table[token].path == key
      then Outcome(table - {token}, Removed(true))
      else Outcome(table, Removed(false))
    case RemoveUnder(key) => Outcome(Forget(table, key), Done)
  }

  /** The answers of a whole run. */
  function LazyRun(table: Table, events: seq<Timed>): seq<Answer>
    decreases |events|
  {
    if events == [] then []
    else var o := Step(table, events[0]); [o.answer] + LazyRun(o.table, events[1..])
  }

  function ReferenceRun(table: Table, events: seq<Timed>): seq<Answer>
    decreases |events|
  {
    if events == [] then []
    else var o := Reference(table, events[0]); [o.answer] + ReferenceRun(o.table, events[1..])
  }

  /** The clock never goes back. */
  ghost predicate Ordered(events: seq<Timed>, start: nat) {
    events == [] || (start <= events[0].at && Ordered(events[1..], events[0].at))
  }

  /** Both tables hold the same locks at `now` and ever after. */
  ghost predicate Agree(lazy: Table, reference: Table, now: nat) {
    && (forall t | t in lazy :: t in reference && lazy[t] == reference[t])
    && (forall t | t in reference && reference[t].expiresAt > now :: t in lazy)
  }

  lemma BlockingOfLive(table: Table, now: nat, key: Bytes, tokens: seq<Bytes>)
    ensures Blocking(Live(table, now), key, tokens)
      == set t | t in table && table[t].expiresAt > now && Blocks(table[t], key) && table[t].token !in tokens ::
           table[t]
  {
    var live := Live(table, now);
    assert forall t :: t in live <==> t in table && table[t].expiresAt > now;
    assert forall t | t in live :: live[t] == table[t];
  }

  lemma CoveringOfLive(table: Table, now: nat, key: Bytes)
    ensures Covering(Live(table, now), key)
      == set t | t in table && table[t].expiresAt > now && table[t].Covers(key) :: table[t]
  {
    var live := Live(table, now);
    assert forall t :: t in live <==> t in table && table[t].expiresAt > now;
    assert forall t | t in live :: live[t] == table[t];
  }

  lemma StepAgrees(lazy: Table, reference: Table, start: nat, event: Timed)
    requires Agree(lazy, reference, start) && start <= event.at
    ensures Step(lazy, event).answer == Reference(reference, event).answer
    ensures Agree(Step(lazy, event).table, Reference(reference, event).table, event.at)
  {
    var live := Live(lazy, event.at);
    assert live == Live(reference, event.at);
    match event.call
    case Conflict(key, tokens) => BlockingOfLive(reference, event.at, key, tokens);
    case Discover(key) => CoveringOfLive(reference, event.at, key);
    case _ =>
  }

  /** Under a clock that never goes back, no answer of a run tells the two tables apart. */
  lemma {:induction false} LazyPurgingIsInvisible(lazy: Table, reference: Table, start: nat, events: seq<Timed>)
    requires Agree(lazy, reference, start) && Ordered(events, start)
    ensures LazyRun(lazy, events) == ReferenceRun(reference, events)
    decreases |events|
  {
    if events != [] {
      StepAgrees(lazy, reference, start, events[0]);
      LazyPurgingIsInvisible(Step(lazy, events[0]).table, Reference(reference, events[0]).table, events[0].at,
                             events[1..]);
    }
  }

  // ---------------------------------------------------------------------------
  // Handlers, one whole step each
  // ---------------------------------------------------------------------------

  /** A LOCK request checks, then files; any other handler makes calls that file nothing new. */
  datatype Action =
    | Acquire(lock: LockEntry, checkedAt: nat, storedAt: nat)
    | Other(event: Timed)

  function Act(table: Table, action: Action): Table {
    match action
    case Acquire(lock, checkedAt, storedAt) =>
      var check := Step(table, Timed(Conflict(lock.path, []), checkedAt));
      if check.answer.locks == {} then Step(check.table, Timed(Insert(lock), storedAt)).table else check.table
    case Other(event) => if event.call.Insert? then table else Step(table, event).table
  }

  function Run(table: Table, actions: seq<Action>): Table
    decreases |actions|
  {
    if actions == [] then table else Run(Act(table, actions[0]), actions[1..])
  }

  lemma ActKeepsExclusive(table: Table, action: Action)
    requires Exclusive(table) && FiledByToken(table)
    ensures Exclusive(Act(table, action)) && FiledByToken(Act(table, action))
  {
    match action
    case Acquire(lock, checkedAt, storedAt) =>
      var checked := Live(table, checkedAt);
      var kept := Live(checked, storedAt);
      ShrinkKeepsExclusive(table, checked);
      ShrinkKeepsExclusive(checked, kept);
      if Blocking(checked, lock.path, []) == {} {
        assert Blocking(kept, lock.path, []) <= Blocking(checked, lock.path, []);
        InsertKeepsExclusive(kept, lock);
      }
    case Other(event) =>
      ShrinkKeepsExclusive(table, Act(table, action));
  }

  /**
   In every run of whole handlers from the empty table, at every instant, no path is
   covered by two different live locks. Neither fresh tokens nor an ordered clock is needed.
   */
  lemma {:induction false} LocksAreExclusive(table: Table, actions: seq<Action>, now: nat)
    requires Exclusive(table) && FiledByToken(table)
    ensures Exclusive(Live(Run(table, actions), now)) && FiledByToken(Run(table, actions))
    decreases |actions|
  {
    if actions == [] {
      ShrinkKeepsExclusive(table, Live(table, now));
    } else {
      ActKeepsExclusive(table, actions[0]);
      LocksAreExclusive(Act(table, actions[0]), actions[1..], now);
    }
  }

  ghost predicate Files(action: Action, token: Bytes) {
    action.Acquire? && action.lock.token == token
  }

  function Starts(action: Action): nat {
    if action.Acquire? then action.checkedAt else action.event.at
  }

  /**
   A lock that has expired is gone for good: whatever happens later, its token is live again
   only if a LOCK request files it anew. In particular no refresh brings it back.
   */
  lemma {:induction false} ExpiredStaysDead(table: Table, actions: seq<Action>, token: Bytes, expired: nat)
    requires token !in Live(table, expired)
    requires forall i | 0 <= i < |actions| :: !Files(actions[i], token) && Starts(actions[i]) >= expired
    ensures forall now: nat | now >= expired :: token !in Live(Run(table, actions), now)
    decreases |actions|
  {
    if actions != [] {
      assert !Files(actions[0], token) && Starts(actions[0]) >= expired;
      assert token !in Live(Act(table, actions[0]), expired);
      ExpiredStaysDead(Act(table, actions[0]), actions[1..], token, expired);
    }
  }

  /**
   Section 7.4 of RFC 4918 wants a lock on a collection, of either depth, to guard adding and
   removing members. Whatever else the table holds, such a lock stands in the way of a request
   for a member, or of one for anything below it, exactly when it has depth infinity.
   */
  lemma MembersGuardedIffInfinite(table: Table, token: Bytes, member: Bytes, tokens: seq<Bytes>)
    requires token in table && table[token].token !in tokens && IsDescendant(table[token].path, member)
    ensures table[token] in Blocking(table, member, tokens) <==> table[token].depthInfinity
  {
    assert |member| > |table[token].path|;
    assert Blocks(table[token], member) <==> table[token].depthInfinity;
  }

  /** The bytes of "~/a", a collection, and of "~/a/b", a member of it. */
  const COLLECTION: Bytes := [0x7E, 0x2F, 0x61]
  const MEMBER: Bytes := [0x7E, 0x2F, 0x61, 0x2F, 0x62]

  /** A collection locked with depth 0, and a request for its member that the table lets through. */
  lemma DepthZeroLeavesMembersOpen(lock: LockEntry)
    requires lock.path == COLLECTION && !lock.depthInfinity
    ensures Blocking(map[lock.token := lock], COLLECTION, []) == {lock}
    ensures IsDescendant(COLLECTION, MEMBER) && Blocking(map[lock.token := lock], MEMBER, []) == {}
  {
    var table := map[lock.token := lock];
    assert COLLECTION == MEMBER[..3] && table[lock.token] == lock;
    assert lock in Blocking(table, COLLECTION, []);
    MembersGuardedIffInfinite(table, lock.token, MEMBER, []);
  }
}
