/** The lock table of webdav.rs: in-memory exclusive write locks (section 6 of RFC 4918). */
module Locks {
  import opened ByteStrings
  import opened DavPath
  import opened Wrappers

  datatype LockEntry = LockEntry(
    token: Bytes, path: Bytes, owner: Option<Bytes>, depthInfinity: bool, timeout: nat, expiresAt: nat)
  {
    predicate Covers(key: Bytes) {
      path == key || (depthInfinity && IsDescendant(path, key))
    }
  }

  /** Locks filed under their tokens. */
  type Table = map<Bytes, LockEntry>

  /** What `with` keeps. */
  function Live(table: Table, now: nat): Table {
    map token | token in table && table[token].expiresAt > now :: table[token]
  }

  /** A lock blocks what it covers and every ancestor of its own path. */
  predicate Blocks(lock: LockEntry, key: Bytes) {
    lock.Covers(key) || IsDescendant(key, lock.path)
  }

  /** The locks `conflict` may report. */
  function Blocking(table: Table, key: Bytes, tokens: seq<Bytes>): set<LockEntry> {
    set token | token in table && Blocks(table[token], key) && table[token].token !in tokens :: table[token]
  }

  function Covering(table: Table, key: Bytes): set<LockEntry> {
    set token | token in table && table[token].Covers(key) :: table[token]
  }

  predicate AtOrBelow(key: Bytes, lock: LockEntry) {
    lock.path == key || IsDescendant(key, lock.path)
  }

  function Forget(table: Table, key: Bytes): Table {
    map token | token in table && !AtOrBelow(key, table[token]) :: table[token]
  }

  function Renewed(lock: LockEntry, timeout: nat, renewedAt: nat): LockEntry {
    lock.(timeout := timeout, expiresAt := renewedAt + timeout)
  }

  /** One critical section of the table. */
  datatype Call =
    | Conflict(key: Bytes, tokens: seq<Bytes>)
    | Discover(key: Bytes)
    | Insert(lock: LockEntry)
    | Refresh(token: Bytes, key: Bytes, timeout: nat, renewedAt: nat)
    | Unlock(token: Bytes, key: Bytes)
    | RemoveUnder(key: Bytes)

  datatype Answer = Entries(locks: set<LockEntry>) | Entry(lock: Option<LockEntry>) | Removed(removed: bool) | Done

  datatype Timed = Timed(call: Call, at: nat)

  datatype Outcome = Outcome(table: Table, answer: Answer)

  /** What `LockTable` does: purge, then act on what is left. */
  function Step(table: Table, event: Timed): Outcome {
    var live := Live(table, event.at);
    match event.call
    case Conflict(key, tokens) => Outcome(live, Entries(Blocking(live, key, tokens)))
    case Discover(key) => Outcome(live, Entries(Covering(live, key)))
    case Insert(lock) => Outcome(live[lock.token := lock], Done)
    case Refresh(token, key, timeout, renewedAt) =>
      if token in live && live[token].Covers(key) then
        var lock := Renewed(live[token], timeout, renewedAt);
        Outcome(live[token := lock], Entry(Some(lock)))
      else Outcome(live, Entry(None))
    case Unlock(token, key) =>
      if token in live && live[token].path == key then Outcome(live - {token}, Removed(true))
      else Outcome(live, Removed(false))
    case RemoveUnder(key) => Outcome(Forget(live, key), Done)
  }

  /** No path is covered by two different locks. */
  ghost predicate Exclusive(table: Table) {
    forall a, b, key: Bytes | a in table && b in table && a != b ::
      !(table[a].Covers(key) && table[b].Covers(key))
  }

  ghost predicate FiledByToken(table: Table) {
    forall token | token in table :: table[token].token == token
  }

  /** The table behind its mutex; every call reads the clock and purges first. */
  class LockTable {
    var locks: Table

    constructor ()
      ensures locks == map[]
    {
      locks := map[];
    }

    method Purge(now: nat)
      modifies this
      ensures locks == Live(old(locks), now)
      ensures forall token :: token in locks <==> token in old(locks) && now < old(locks)[token].expiresAt
      ensures forall token | token in locks :: locks[token] == old(locks)[token]
    {
      locks := map token | token in locks && locks[token].expiresAt > now :: locks[token];
    }

    method Conflict(key: Bytes, tokens: seq<Bytes>, now: nat) returns (r: Option<LockEntry>)
      modifies this
      ensures var o := Step(old(locks), Timed(Call.Conflict(key, tokens), now));
              && locks == o.table
              && (r.None? <==> o.answer.locks == {})
              && (r.Some? ==> r.value in o.answer.locks)
    {
      Purge(now);
      var found := Blocking(locks, key, tokens);
      if found == {} { return None; }
      var lock :| lock in found;
      r := Some(lock);
    }

    method ActiveFor(key: Bytes, now: nat) returns (r: set<LockEntry>)
      modifies this
      ensures Outcome(locks, Entries(r)) == Step(old(locks), Timed(Discover(key), now))
    {
      Purge(now);
      r := Covering(locks, key);
    }

    method Insert(lock: LockEntry, now: nat)
      modifies this
      ensures locks == Step(old(locks), Timed(Call.Insert(lock), now)).table
    {
      Purge(now);
      locks := locks[lock.token := lock];
    }

    method Refresh(token: Bytes, key: Bytes, timeout: nat, now: nat, renewedAt: nat) returns (r: Option<LockEntry>)
      modifies this
      ensures Outcome(locks, Entry(r)) == Step(old(locks), Timed(Call.Refresh(token, key, timeout, renewedAt), now))
    {
      Purge(now);
      if token !in locks || !locks[token].Covers(key) { return None; }
      var lock := Renewed(locks[token], timeout, renewedAt);
      locks := locks[token := lock];
      r := Some(lock);
    }

    method Remove(token: Bytes, key: Bytes, now: nat) returns (removed: bool)
      modifies this
      ensures Outcome(locks, Removed(removed)) == Step(old(locks), Timed(Unlock(token, key), now))
    {
      Purge(now);
      removed := token in locks && locks[token].path == key;
      if removed { locks := locks - {token}; }
    }

    method RemoveUnder(key: Bytes, now: nat)
      modifies this
      ensures locks == Step(old(locks), Timed(Call.RemoveUnder(key), now)).table
    {
      Purge(now);
      locks := map token | token in locks && locks[token].path != key && !IsDescendant(key, locks[token].path) ::
        locks[token];
    }
  }

  // ---------------------------------------------------------------------------
  // What the tests on keys mean for names
  // ---------------------------------------------------------------------------

  /** A lock taken on these names. */
  ghost predicate TakenOn(lock: LockEntry, locked: seq<Bytes>) {
    locked != [] && AllFileNames(locked) && lock.path == Join(locked, SLASH)
  }

  /** A lock covers its own names and, with depth infinity, all names that extend them. */
  lemma CoversNames(lock: LockEntry, locked: seq<Bytes>, names: seq<Bytes>)
    requires TakenOn(lock, locked) && names != [] && AllFileNames(names)
    ensures lock.Covers(Join(names, SLASH)) <==> names == locked || (lock.depthInfinity && locked <= names)
  {
    JoinOrder(locked, names);
  }

  /** `conflict` reports the live locks that cover the names or that names above them are locked by. */
  lemma ConflictNames(table: Table, token: Bytes, locked: seq<Bytes>, names: seq<Bytes>, tokens: seq<Bytes>, now: nat)
    requires token in table && TakenOn(table[token], locked) && names != [] && AllFileNames(names)
    ensures table[token] in Step(table, Timed(Call.Conflict(Join(names, SLASH), tokens), now)).answer.locks <==>
            && now < table[token].expiresAt && table[token].token !in tokens
            && (names <= locked || (table[token].depthInfinity && locked <= names))
  {
    JoinOrder(names, locked);
    JoinOrder(locked, names);
    assert now < table[token].expiresAt ==> token in Live(table, now) && Live(table, now)[token] == table[token];
  }

  /** `remove_under` drops exactly the locks whose names extend those given, and what has expired. */
  lemma RemovedUnderNames(table: Table, token: Bytes, locked: seq<Bytes>, names: seq<Bytes>, now: nat)
    requires token in table && TakenOn(table[token], locked) && names != [] && AllFileNames(names)
    ensures var after := Step(table, Timed(Call.RemoveUnder(Join(names, SLASH)), now)).table;
            && (token in after <==> now < table[token].expiresAt && !(names <= locked))
            && (token in after ==> after[token] == table[token])
  {
    JoinOrder(names, locked);
  }

  /** The test `remove_under` makes, on names. */
  lemma AtOrBelowNames(lock: LockEntry, locked: seq<Bytes>, names: seq<Bytes>)
    requires TakenOn(lock, locked) && names != [] && AllFileNames(names)
    ensures AtOrBelow(Join(names, SLASH), lock) <==> names <= locked
  {
    JoinOrder(names, locked);
  }

  // ---------------------------------------------------------------------------
  // Ancestors of one path are comparable
  // ---------------------------------------------------------------------------

  lemma AncestorsComparable(a: Bytes, b: Bytes, key: Bytes)
    requires IsDescendant(a, key) && IsDescendant(b, key)
    ensures a == b || IsDescendant(a, b) || IsDescendant(b, a)
  {
    if |a| == |b| {
      assert a == key[..|a|] == b;
    } else if |a| < |b| {
      assert b == key[..|b|] && b[|a|] == key[|a|] == SLASH;
    } else {
      assert a == key[..|a|] && a[|b|] == key[|b|] == SLASH;
    }
  }

  /** Any lock that covers something a second lock at `key` would cover blocks `key`. */
  lemma OverlapBlocks(lock: LockEntry, other: LockEntry, key: Bytes)
    requires lock.Covers(key) && other.Covers(key)
    ensures Blocks(lock, other.path)
  {
    if lock.path != key && other.path != key {
      AncestorsComparable(lock.path, other.path, key);
    }
  }

  /**
   `conflict` is exact for a depth-infinity request: a lock blocks a key if and only if
   some path would be covered by both.
   */
  lemma BlocksIsOverlap(lock: LockEntry, request: LockEntry)
    requires request.depthInfinity
    ensures Blocks(lock, request.path) <==> exists key :: lock.Covers(key) && request.Covers(key)
  {
    if lock.Covers(request.path) {
      assert request.Covers(request.path);
    } else if IsDescendant(request.path, lock.path) {
      assert lock.Covers(lock.path) && request.Covers(lock.path);
    }
    forall key | lock.Covers(key) && request.Covers(key) ensures Blocks(lock, request.path) {
      OverlapBlocks(lock, request, key);
    }
  }

  lemma UnblockedIsDisjoint(lock: LockEntry, other: LockEntry, key: Bytes)
    requires !Blocks(lock, other.path)
    ensures !(lock.Covers(key) && other.Covers(key))
  {
    if lock.Covers(key) && other.Covers(key) {
      OverlapBlocks(lock, other, key);
    }
  }

  /** Filing a lock that nothing blocks keeps the table exclusive. */
  lemma InsertKeepsExclusive(table: Table, lock: LockEntry)
    requires Exclusive(table) && Blocking(table, lock.path, []) == {}
    ensures Exclusive(table[lock.token := lock])
  {
    var after := table[lock.token := lock];
    assert forall t | t in table :: Blocks(table[t], lock.path) ==> table[t] in Blocking(table, lock.path, []);
    forall a, b, key: Bytes | a in after && b in after && a != b
      ensures !(after[a].Covers(key) && after[b].Covers(key))
    {
      if a == lock.token {
        UnblockedIsDisjoint(table[b], lock, key);
      } else if b == lock.token {
        UnblockedIsDisjoint(table[a], lock, key);
      }
    }
  }

  /** Taking locks away, or renewing one, keeps the table exclusive. */
  lemma ShrinkKeepsExclusive(table: Table, after: Table)
    requires Exclusive(table)
    requires forall token | token in after ::
               token in table && after[token].path == table[token].path
               && after[token].depthInfinity == table[token].depthInfinity
    ensures Exclusive(after)
  {
    forall a, b, key: Bytes | a in after && b in after && a != b
      ensures !(after[a].Covers(key) && after[b].Covers(key))
    {
      assert after[a].Covers(key) == table[a].Covers(key) && after[b].Covers(key) == table[b].Covers(key);
    }
  }
}
