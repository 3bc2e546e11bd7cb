/** The table-backed sitewide lock (mysql_proxy.cpp, `lock` and `unlock`; the `locks` table has a
    unique key).  Taking a lock inserts a row; a refused attempt deletes every row older than a
    minute, in a statement of its own that other clients can run in front of. */
module SitewideLocks {

  type Client = nat

  const STALE_AFTER: int := 60

  // ---------------------------------------------------------------------------------------
  // The table
  // ---------------------------------------------------------------------------------------

  function Sweep(locks: map<string, int>, now: int): map<string, int> {
    map k | k in locks && !(locks[k] < now - STALE_AFTER) :: locks[k]
  }

  // ---------------------------------------------------------------------------------------
  // Interleaved clients
  // ---------------------------------------------------------------------------------------

  /** One statement that a client runs. */
  datatype Event =
    | Locked(client: Client, key: string, now: int)
    | Refused(client: Client, key: string, now: int)
    | Swept(client: Client, now: int)
    | Unlocked(client: Client, key: string, now: int)

  /** The table after one event. */
  function After(locks: map<string, int>, e: Event): map<string, int> {
    match e
    case Locked(_, k, now) => locks[k := now]
    case Refused(_, _, _) => locks
    case Swept(_, now) => Sweep(locks, now)
    case Unlocked(_, k, _) => locks - {k}
  }

  /** The table after the first n events. */
  function Locks(es: seq<Event>, n: nat): map<string, int>
    requires n <= |es|
  {
    if n == 0 then map[] else After(Locks(es, n - 1), es[n - 1])
  }

  /** The clients that were refused and have not swept yet. */
  function Pending(es: seq<Event>, n: nat): set<Client>
    requires n <= |es|
  {
    if n == 0 then {}
    else
      var pending := Pending(es, n - 1);
      match es[n - 1]
      case Locked(_, _, _) => pending
      case Refused(c, _, _) => pending + {c}
      case Swept(c, _) => pending - {c}
      case Unlocked(_, _, _) => pending
  }

  /** Event n can come after the events before it. */
  predicate Enabled(es: seq<Event>, n: nat)
    requires n < |es|
  {
    && (n > 0 ==> es[n - 1].now <= es[n].now)
    && match es[n]
       case Locked(c, k, _) => c !in Pending(es, n) && k !in Locks(es, n)
       case Refused(c, k, _) => c !in Pending(es, n) && k in Locks(es, n)
       case Swept(c, _) => c in Pending(es, n)
       case Unlocked(c, _, _) => c !in Pending(es, n)
  }

  /** A run of the protocol with a clock that never goes back. */
  ghost predicate IsRun(es: seq<Event>) {
    forall n | 0 <= n < |es| :: Enabled(es, n)
  }

  /** Event m is a sweep that happens more than a minute after time t. */
  ghost predicate LateSweep(es: seq<Event>, m: nat, t: int) {
    m < |es| && es[m].Swept? && es[m].now > t + 60
  }

  ghost predicate NoUnlock(es: seq<Event>, i: nat, j: nat, key: string)
    requires j <= |es|
  {
    forall m | i < m < j && es[m].Unlocked? :: es[m].key != key
  }

  /** Until a late sweep or an unlock, the row of the first acquisition stays in the table. */
  lemma {:induction false} RowStays(es: seq<Event>, i: nat, n: nat)
    requires IsRun(es) && i < n <= |es| && es[i].Locked? && NoUnlock(es, i, n, es[i].key)
    requires forall m | i < m < n :: !LateSweep(es, m, es[i].now)
    ensures es[i].key in Locks(es, n) && Locks(es, n)[es[i].key] == es[i].now
  {
    if i < n - 1 {
      RowStays(es, i, n - 1);
      assert Enabled(es, n - 1);
      assert !LateSweep(es, n - 1, es[i].now);
    }
  }

  lemma {:induction false} ClockMonotone(es: seq<Event>, i: nat, j: nat)
    requires IsRun(es) && i <= j < |es|
    ensures es[i].now <= es[j].now
  {
    if i < j {
      ClockMonotone(es, i, j - 1);
      assert Enabled(es, j);
    }
  }

  lemma {:induction false} SweeperWasRefused(es: seq<Event>, n: nat, c: Client) returns (r: nat)
    requires IsRun(es) && n <= |es| && c in Pending(es, n)
    ensures r < n && es[r].Refused? && es[r].client == c
    ensures forall m | r < m < n :: es[m].client != c
  {
    assert Enabled(es, n - 1);
    if es[n - 1].Refused? && es[n - 1].client == c {
      r := n - 1;
    } else {
      r := SweeperWasRefused(es, n - 1, c);
    }
  }

  /** Two acquisitions of the same key without an unlock between them are separated by a sweep more
      than a minute after the first, run by a client whose own last attempt was refused. */
  lemma SecondAcquisitionNeedsLateSweep(es: seq<Event>, i: nat, j: nat) returns (m: nat, r: nat)
    requires IsRun(es) && i < j < |es| && es[i].Locked? && es[j].Locked? && es[i].key == es[j].key
    requires NoUnlock(es, i, j, es[i].key)
    ensures i < m < j && LateSweep(es, m, es[i].now)
    ensures r < m && es[r].Refused? && es[r].client == es[m].client
    ensures forall q | r < q < m :: es[q].client != es[m].client
  {
    assert Enabled(es, j);
    if forall q | i < q < j :: !LateSweep(es, q, es[i].now) { RowStays(es, i, j); }
    m :| i < m < j && LateSweep(es, m, es[i].now);
    assert Enabled(es, m);
    r := SweeperWasRefused(es, m, es[m].client);
  }

  /** Mutual exclusion: without an unlock, a key is not given out twice within a minute. */
  lemma ExclusiveForAMinute(es: seq<Event>, i: nat, j: nat)
    requires IsRun(es) && i < j < |es| && es[i].Locked? && es[j].Locked? && es[i].key == es[j].key
    requires NoUnlock(es, i, j, es[i].key)
    ensures es[j].now > es[i].now + 60
  {
    var m, r := SecondAcquisitionNeedsLateSweep(es, i, j);
    ClockMonotone(es, m, j);
  }

  /** The lock does not outlive its holder by much: a sweep more than a minute after the acquisition
      leaves the key free, whoever runs it. */
  lemma LateSweepFrees(es: seq<Event>, i: nat, m: nat)
    requires IsRun(es) && i < m < |es| && es[i].Locked? && LateSweep(es, m, es[i].now)
    requires forall q | i < q < m && es[q].Locked? :: es[q].key != es[i].key
    ensures es[i].key !in Locks(es, m + 1)
  {
    AgeBound(es, i, m);
  }

  lemma {:induction false} AgeBound(es: seq<Event>, i: nat, n: nat)
    requires i < n <= |es| && es[i].Locked? && forall q | i < q < n && es[q].Locked? :: es[q].key != es[i].key
    ensures es[i].key in Locks(es, n) ==> Locks(es, n)[es[i].key] == es[i].now
  {
    if i < n - 1 { AgeBound(es, i, n - 1); }
  }

  // ---------------------------------------------------------------------------------------
  // The two calls
  // ---------------------------------------------------------------------------------------

  /** The row of the key was last taken at event i, and not given back since. */
  ghost predicate Holds(es: seq<Event>, i: nat, key: string) {
    i < |es| && es[i].Locked? && es[i].key == key && NoUnlock(es, i, |es|, key)
  }

  /** A client can act at this time. */
  ghost predicate CanAct(es: seq<Event>, client: Client, now: int) {
    client !in Pending(es, |es|) && (es != [] ==> es[|es| - 1].now <= now)
  }

  lemma {:induction false} LocksPrefix(es: seq<Event>, e: Event, n: nat)
    requires n <= |es|
    ensures Locks(es + [e], n) == Locks(es, n) && Pending(es + [e], n) == Pending(es, n)
  {
    if n > 0 { LocksPrefix(es, e, n - 1); }
  }

  lemma EnabledPrefix(es: seq<Event>, e: Event, n: nat)
    requires n < |es| && Enabled(es, n)
    ensures Enabled(es + [e], n)
  {
    LocksPrefix(es, e, n);
    assert (es + [e])[n] == es[n];
    if n > 0 { assert (es + [e])[n - 1] == es[n - 1]; }
  }

  /** One more event that is enabled makes a longer run. */
  lemma RunExtends(es: seq<Event>, e: Event)
    requires IsRun(es) && Enabled(es + [e], |es|)
    ensures IsRun(es + [e]) && Locks(es + [e], |es| + 1) == After(Locks(es, |es|), e)
  {
    LocksPrefix(es, e, |es|);
    forall n | 0 <= n < |es| + 1
      ensures Enabled(es + [e], n)
    {
      if n < |es| { EnabledPrefix(es, e, n); }
    }
  }

  /** The lock table in the hands of any number of clients; every method is what one client does in
      one go. */
  class LockTable {
    /** Key to creation time in seconds. */
    var locks: map<string, int>
    /** The statements run so far. */
    ghost var events: seq<Event>

    constructor ()
      ensures Valid() && events == []
    {
      locks, events := map[], [];
    }

    ghost predicate Valid()
      reads this
    {
      IsRun(events) && locks == Locks(events, |events|)
    }

    /** The statement is the last one, and the table is what it makes of it. */
    ghost method Log(e: Event)
      requires IsRun(events) && Enabled(events + [e], |events|) && locks == After(Locks(events, |events|), e)
      modifies this`events
      ensures Valid() && events == old(events) + [e]
    {
      RunExtends(events, e);
      events := events + [e];
    }

    /** The insert: it succeeds exactly when nobody has a row for the key, and then every earlier
        acquisition that was not given back is more than a minute old. */
    method Insert(client: Client, key: string, now: int) returns (inserted: bool)
      requires Valid() && CanAct(events, client, now)
      modifies this
      ensures Valid() && events == old(events) + [if inserted then Locked(client, key, now) else Refused(client, key, now)]
      ensures inserted <==> key !in old(locks)
      ensures locks == if inserted then old(locks)[key := now] else old(locks)
      ensures inserted ==> forall i: nat | Holds(old(events), i, key) :: old(events)[i].now < now - 60
    {
      inserted := key !in locks;
      ghost var e := if inserted then Locked(client, key, now) else Refused(client, key, now);
      LocksPrefix(events, e, |events|);
      if inserted {
        locks := locks[key := now];
      }
      Log(e);
      forall i: nat | inserted && Holds(old(events), i, key)
        ensures old(events)[i].now < now - 60
      {
        ExclusiveForAMinute(events, i, |old(events)|);
      }
    }

    /** The delete that a refused client runs next: it leaves exactly the fresh rows. */
    method DeleteStale(client: Client, now: int)
      requires Valid() && client in Pending(events, |events|) && events[|events| - 1].now <= now
      modifies this
      ensures Valid() && events == old(events) + [Swept(client, now)]
      ensures forall k :: k in locks <==> k in old(locks) && old(locks)[k] >= now - 60
      ensures forall k | k in locks :: locks[k] == old(locks)[k]
    {
      LocksPrefix(events, Swept(client, now), |events|);
      locks := Sweep(locks, now);
      Log(Swept(client, now));
    }

    /** `now` and `later` are the clock at the insert and at the delete. */
    method Lock(client: Client, key: string, now: int, later: int) returns (gotLock: int)
      requires Valid() && CanAct(events, client, now) && now <= later
      modifies this
      ensures Valid() && (gotLock == 1 || gotLock == 0)
      ensures gotLock == 1 ==> events == old(events) + [Locked(client, key, now)]
      ensures gotLock == 0 ==> events == old(events) + [Refused(client, key, now), Swept(client, later)]
      ensures gotLock == 1 <==> key !in old(locks)
      ensures gotLock == 1 ==> forall i: nat | Holds(old(events), i, key) :: old(events)[i].now < now - 60
      ensures gotLock == 1 ==> locks == old(locks)[key := now]
      ensures gotLock == 0 ==> forall k :: k in locks <==> k in old(locks) && old(locks)[k] >= later - 60
      ensures gotLock == 0 ==> forall k | k in locks :: locks[k] == old(locks)[k]
    {
      gotLock := 0;
      var inserted := Insert(client, key, now);
      if inserted {
        gotLock := 1;
      } else {
        LocksPrefix(old(events), Refused(client, key, now), |old(events)|);
        DeleteStale(client, later);
        assert events == old(events) + [Refused(client, key, now), Swept(client, later)];
      }
    }

    /** Afterwards the next client that asks gets the key; no other row changes. */
    method Unlock(client: Client, key: string, now: int) returns (status: int)
      requires Valid() && CanAct(events, client, now)
      modifies this
      ensures Valid() && events == old(events) + [Unlocked(client, key, now)] && status == 1
      ensures key !in locks
      ensures forall k | k != key :: (k in locks <==> k in old(locks)) && (k in locks ==> locks[k] == old(locks)[k])
    {
      LocksPrefix(events, Unlocked(client, key, now), |events|);
      locks := locks - {key};
      Log(Unlocked(client, key, now));
      status := 1;
    }
  }
}
