/** The connection pools of mysql_proxy.cpp and memcache_proxy.cpp: a map from connections to flags
    and a counter under a mutex, with a condition variable for threads that find nothing free. */
module ConnectionPools {
  import opened Wrappers

  type Conn = nat
  type Thread = nat

  datatype Flag = Free | InUse

  /** One entry of the pool map; the entries are kept in the order in which the map iterates. */
  datatype Slot = Slot(conn: Conn, flag: Flag)

  ghost predicate DistinctConns(slots: seq<Slot>) {
    forall i, j | 0 <= i < j < |slots| :: slots[i].conn != slots[j].conn
  }

  function CountFree(slots: seq<Slot>): nat {
    if slots == [] then 0 else CountFree(slots[..|slots| - 1]) + if slots[|slots| - 1].flag == Free then 1 else 0
  }

  function FirstFree(slots: seq<Slot>, from: nat): (i: Option<nat>)
    requires from <= |slots|
    ensures i.Some? ==> from <= i.value < |slots| && slots[i.value].flag == Free
    ensures forall k | from <= k < if i.Some? then i.value else |slots| :: slots[k].flag != Free
    decreases |slots| - from
  {
    if from == |slots| then None else if slots[from].flag == Free then Some(from) else FirstFree(slots, from + 1)
  }

  /** Marks every entry of the connection free. */
  function FreeAll(slots: seq<Slot>, con: Conn): seq<Slot> {
    seq(|slots|, i requires 0 <= i < |slots| => if slots[i].conn == con then Slot(con, Free) else slots[i])
  }

  function CountConn(slots: seq<Slot>, con: Conn): nat {
    if slots == [] then 0 else CountConn(slots[..|slots| - 1], con) + if slots[|slots| - 1].conn == con then 1 else 0
  }

  /** The state that the pool mutex protects, with the critical sections as methods. */
  class ConnectionPool {
    var slots: seq<Slot>
    var available: int

    constructor (conns: seq<Conn>)
      ensures |slots| == |conns| == available
      ensures forall i | 0 <= i < |conns| :: slots[i] == Slot(conns[i], Free)
    {
      slots := seq(|conns|, i requires 0 <= i < |conns| => Slot(conns[i], Free));
      available := |conns|;
    }

    /** `getConnection` after the wait loop; None is the throw at the end. */
    method TakeFree() returns (con: Option<Conn>)
      modifies this
      ensures match FirstFree(old(slots), 0)
              case Some(i) => con == Some(old(slots)[i].conn) && slots == old(slots)[i := Slot(old(slots)[i].conn, InUse)] && available == old(available) - 1
              case None => con == None && slots == old(slots) && available == old(available)
    {
      var iter := 0;
      while iter < |slots|
        invariant 0 <= iter <= |slots| && slots == old(slots) && available == old(available)
        invariant FirstFree(slots, iter) == FirstFree(slots, 0)
      {
        if slots[iter].flag == Free {
          con := Some(slots[iter].conn);
          slots := slots[iter := slots[iter].(flag := InUse)];
          available := available - 1;
          return;
        }
        iter := iter + 1;
      }
      return None;
    }

    /** `freeConnection` up to the notification. */
    method FreeConnection(con: Conn)
      modifies this
      ensures slots == FreeAll(old(slots), con)
      ensures |slots| == |old(slots)| && forall k | 0 <= k < |slots| ::
                slots[k] == if old(slots)[k].conn == con then Slot(con, Free) else old(slots)[k]
      ensures available == old(available) + CountConn(old(slots), con)
    {
      var iter := 0;
      assert slots[..0] == [];
      while iter < |slots|
        invariant 0 <= iter <= |slots| == |old(slots)|
        invariant forall k | 0 <= k < |slots| ::
                    slots[k] == if k < iter && old(slots)[k].conn == con then Slot(con, Free) else old(slots)[k]
        invariant available == old(available) + CountConn(old(slots)[..iter], con)
      {
        assert old(slots)[..iter + 1][..iter] == old(slots)[..iter];
        if slots[iter].conn == con {
          slots := slots[iter := slots[iter].(flag := Free)];
          available := available + 1;
        }
        iter := iter + 1;
      }
      assert old(slots)[..iter] == old(slots);
    }
  }

  // ---------------------------------------------------------------------------------------
  // The protocol
  // ---------------------------------------------------------------------------------------

  /** Where a thread is: Waiting on the condition variable, Notified but not yet run again, holding
      a handle, or past the throw that should never happen. */
  datatype Place = Idle | Waiting | Notified | Holding(conn: Conn) | Thrown

  datatype State = State(slots: seq<Slot>, available: int, threads: map<Thread, Place>)

  datatype Step =
    | Get                          // an idle thread enters getConnection
    | Resume                       // a notified thread reacquires the mutex and tests again
    | Spurious                     // a wakeup without notification
    | Release(waiter: Option<Thread>)   // a handle is destroyed; `waiter` is the thread that notify_one picks

  /** What a thread that holds the mutex does in getConnection. */
  function Enter(s: State, t: Thread): State {
    if s.available == 0 then s.(threads := s.threads[t := Waiting])
    else match FirstFree(s.slots, 0)
      case Some(i) =>
        State(s.slots[i := Slot(s.slots[i].conn, InUse)], s.available - 1, s.threads[t := Holding(s.slots[i].conn)])
      case None => s.(threads := s.threads[t := Thrown])
  }

  ghost predicate Next(s: State, t: Thread, step: Step, s': State) {
    && t in s.threads
    && match step
       case Get => s.threads[t] == Idle && s' == Enter(s, t)
       case Resume => s.threads[t] == Notified && s' == Enter(s, t)
       case Spurious => s.threads[t] == Waiting && s' == s.(threads := s.threads[t := Notified])
       case Release(w) =>
         && s.threads[t].Holding?
         && var con, threads := s.threads[t].conn, s.threads[t := Idle];
            && (match w
                case Some(u) => u in threads && threads[u] == Waiting
                case None => forall u | u in threads :: threads[u] != Waiting)
            && s' == State(FreeAll(s.slots, con), s.available + CountConn(s.slots, con),
                           match w case Some(u) => threads[u := Notified] case None => threads)
  }

  ghost predicate Init(s: State) {
    && DistinctConns(s.slots) && (forall i | 0 <= i < |s.slots| :: s.slots[i].flag == Free)
    && s.available == |s.slots| && forall t | t in s.threads :: s.threads[t] == Idle
  }

  ghost function NotifiedThreads(threads: map<Thread, Place>): set<Thread> {
    set t | t in threads && threads[t] == Notified
  }

  ghost predicate SomeoneWaits(threads: map<Thread, Place>) { exists t | t in threads :: threads[t] == Waiting }

  ghost predicate Holds(threads: map<Thread, Place>, t: Thread, con: Conn) { t in threads && threads[t] == Holding(con) }

  /** No connection has two live handles, and exactly the connections in use have one. */
  ghost predicate HandlesAgree(slots: seq<Slot>, threads: map<Thread, Place>) {
    && (forall t, u, c | Holds(threads, t, c) && Holds(threads, u, c) :: t == u)
    && (forall i | 0 <= i < |slots| :: slots[i].flag == InUse <==> exists t :: Holds(threads, t, slots[i].conn))
    && (forall t, c | Holds(threads, t, c) :: exists i | 0 <= i < |slots| :: slots[i].conn == c)
  }

  /** If some waiter has not been notified, enough notified threads are on their way to take all
      that is available. */
  ghost predicate NoLostWakeup(s: State) {
    SomeoneWaits(s.threads) ==> |NotifiedThreads(s.threads)| >= s.available
  }

  ghost predicate Inv(s: State) {
    && DistinctConns(s.slots)
    && s.available == CountFree(s.slots)
    && HandlesAgree(s.slots, s.threads)
    && (forall t | t in s.threads :: s.threads[t] != Thrown)
    && NoLostWakeup(s)
  }

  lemma {:induction false} CountZero(slots: seq<Slot>)
    ensures CountFree(slots) == 0 <==> FirstFree(slots, 0) == None
    ensures (forall i | 0 <= i < |slots| :: slots[i].flag == Free) ==> CountFree(slots) == |slots|
  {
    if slots != [] {
      var front := slots[..|slots| - 1];
      CountZero(front);
      assert (exists i | 0 <= i < |slots| :: slots[i].flag == Free) <==>
             (exists i | 0 <= i < |front| :: front[i].flag == Free) || slots[|slots| - 1].flag == Free;
    }
  }

  lemma {:induction false} CountUpdate(slots: seq<Slot>, i: nat, x: Slot)
    requires i < |slots|
    ensures CountFree(slots[i := x]) ==
            CountFree(slots) - (if slots[i].flag == Free then 1 else 0) + if x.flag == Free then 1 else 0
  {
    var n := |slots| - 1;
    if i < n {
      CountUpdate(slots[..n], i, x);
      assert slots[i := x][..n] == slots[..n][i := x];
    } else {
      assert slots[i := x][..n] == slots[..n];
    }
  }

  lemma {:induction false} CountAbsent(slots: seq<Slot>, con: Conn)
    requires forall i | 0 <= i < |slots| :: slots[i].conn != con
    ensures CountConn(slots, con) == 0
  {
    if slots != [] { CountAbsent(slots[..|slots| - 1], con); }
  }

  lemma {:induction false} CountPresent(slots: seq<Slot>, con: Conn, i: nat)
    requires DistinctConns(slots) && i < |slots| && slots[i].conn == con
    ensures CountConn(slots, con) == 1
  {
    var n := |slots| - 1;
    if i < n { CountPresent(slots[..n], con, i); } else { CountAbsent(slots[..n], con); }
  }

  lemma NotifiedUpdate(threads: map<Thread, Place>, t: Thread, p: Place)
    requires t in threads
    ensures |NotifiedThreads(threads[t := p])| ==
            |NotifiedThreads(threads)| - (if threads[t] == Notified then 1 else 0) + if p == Notified then 1 else 0
  {
    var before, after := NotifiedThreads(threads), NotifiedThreads(threads[t := p]);
    assert after - {t} == before - {t};
    assert before == if threads[t] == Notified then (before - {t}) + {t} else before - {t};
    assert after == if p == Notified then (after - {t}) + {t} else after - {t};
  }

  lemma InitInv(s: State)
    requires Init(s)
    ensures Inv(s)
  {
    CountZero(s.slots);
  }

  lemma EnterInv(s: State, t: Thread)
    requires Inv(s) && t in s.threads && (s.threads[t] == Idle || s.threads[t] == Notified)
    ensures Inv(Enter(s, t))
  {
    CountZero(s.slots);
    if s.available == 0 {
      NotifiedUpdate(s.threads, t, Waiting);
      HandlesSame(s, t, Waiting);
    } else {
      var i := FirstFree(s.slots, 0).value;
      CountUpdate(s.slots, i, Slot(s.slots[i].conn, InUse));
      NotifiedUpdate(s.threads, t, Holding(s.slots[i].conn));
      HandlesTaken(s, t, i);
    }
  }

  lemma HandlesSame(s: State, t: Thread, p: Place)
    requires HandlesAgree(s.slots, s.threads) && t in s.threads && !s.threads[t].Holding? && !p.Holding?
    ensures HandlesAgree(s.slots, s.threads[t := p])
  {
    var threads := s.threads[t := p];
    forall u, c
      ensures Holds(s.threads, u, c) <==> Holds(threads, u, c)
    {
    }
    forall i | 0 <= i < |s.slots|
      ensures s.slots[i].flag == InUse <==> exists u :: Holds(threads, u, s.slots[i].conn)
    {
      if s.slots[i].flag == InUse {
        var u :| Holds(s.threads, u, s.slots[i].conn);
        assert Holds(threads, u, s.slots[i].conn);
      }
    }
  }

  lemma HandlesTaken(s: State, t: Thread, i: nat)
    requires HandlesAgree(s.slots, s.threads) && DistinctConns(s.slots)
    requires t in s.threads && !s.threads[t].Holding? && i < |s.slots| && s.slots[i].flag == Free
    ensures HandlesAgree(s.slots[i := Slot(s.slots[i].conn, InUse)], s.threads[t := Holding(s.slots[i].conn)])
  {
    var con := s.slots[i].conn;
    var slots, threads := s.slots[i := Slot(con, InUse)], s.threads[t := Holding(con)];
    forall u, c
      ensures Holds(threads, u, c) <==> Holds(s.threads, u, c) || (u == t && c == con)
    {
    }
    forall k | 0 <= k < |slots|
      ensures slots[k].flag == InUse <==> exists u :: Holds(threads, u, slots[k].conn)
    {
      if k == i {
        assert Holds(threads, t, con);
      } else if slots[k].flag == InUse {
        var u :| Holds(s.threads, u, s.slots[k].conn);
        assert Holds(threads, u, slots[k].conn);
      }
    }
    forall u, c | Holds(threads, u, c)
      ensures exists k | 0 <= k < |slots| :: slots[k].conn == c
    {
      if u == t && c == con {
        assert slots[i].conn == c;
      } else {
        var k :| 0 <= k < |s.slots| && s.slots[k].conn == c;
        assert slots[k].conn == c;
      }
    }
  }

  lemma HandlesReleased(s: State, t: Thread, i: nat)
    requires HandlesAgree(s.slots, s.threads) && DistinctConns(s.slots)
    requires i < |s.slots| && Holds(s.threads, t, s.slots[i].conn)
    ensures HandlesAgree(s.slots[i := Slot(s.slots[i].conn, Free)], s.threads[t := Idle])
  {
    var con := s.slots[i].conn;
    var slots, threads := s.slots[i := Slot(con, Free)], s.threads[t := Idle];
    forall u, c
      ensures Holds(threads, u, c) <==> Holds(s.threads, u, c) && u != t
    {
    }
    forall k | 0 <= k < |slots|
      ensures slots[k].flag == InUse <==> exists u :: Holds(threads, u, slots[k].conn)
    {
      if k != i && slots[k].flag == InUse {
        var u :| Holds(s.threads, u, s.slots[k].conn);
        assert Holds(threads, u, slots[k].conn);
      }
    }
    forall u, c | Holds(threads, u, c)
      ensures exists k | 0 <= k < |slots| :: slots[k].conn == c
    {
      var k :| 0 <= k < |s.slots| && s.slots[k].conn == c;
      assert slots[k].conn == c;
    }
  }

  /** A handle is destroyed, before anyone is notified. */
  lemma FreedInv(s: State, t: Thread, con: Conn)
    requires Inv(s) && Holds(s.threads, t, con)
    ensures var slots, available := FreeAll(s.slots, con), s.available + CountConn(s.slots, con);
            && DistinctConns(slots) && available == CountFree(slots) == s.available + 1
            && HandlesAgree(slots, s.threads[t := Idle])
  {
    var i :| 0 <= i < |s.slots| && s.slots[i].conn == con;
    CountPresent(s.slots, con, i);
    assert FreeAll(s.slots, con) == s.slots[i := Slot(con, Free)];
    CountUpdate(s.slots, i, Slot(con, Free));
    HandlesReleased(s, t, i);
  }

  lemma ReleaseInv(s: State, t: Thread, w: Option<Thread>, s': State)
    requires Inv(s) && Next(s, t, Release(w), s')
    ensures Inv(s')
  {
    var con, threads := s.threads[t].conn, s.threads[t := Idle];
    FreedInv(s, t, con);
    NotifiedUpdate(s.threads, t, Idle);
    match w
    case Some(u) =>
      HandlesSame(State(s'.slots, s'.available, threads), u, Notified);
      NotifiedUpdate(threads, u, Notified);
      assert s.threads[u] == Waiting;
    case None =>
  }

  lemma InvStep(s: State, t: Thread, step: Step, s': State)
    requires Inv(s) && Next(s, t, step, s')
    ensures Inv(s')
  {
    match step
    case Get => EnterInv(s, t);
    case Resume => EnterInv(s, t);
    case Spurious =>
      NotifiedUpdate(s.threads, t, Notified);
      HandlesSame(s, t, Notified);
    case Release(w) => ReleaseInv(s, t, w, s');
  }

  ghost predicate IsRun(states: seq<State>, who: seq<Thread>, steps: seq<Step>) {
    && |states| > 0 && Init(states[0]) && |who| == |steps| == |states| - 1
    && forall i | 0 <= i < |steps| :: Next(states[i], who[i], steps[i], states[i + 1])
  }

  /** In every interleaving the counter is the number of free entries, no connection has two live
      handles, the throw is not reached, and no wakeup is lost. */
  lemma {:induction false} PoolSafe(states: seq<State>, who: seq<Thread>, steps: seq<Step>, n: nat)
    requires IsRun(states, who, steps) && n < |states|
    ensures Inv(states[n])
  {
    if n == 0 {
      InitInv(states[0]);
    } else {
      PoolSafe(states, who, steps, n - 1);
      InvStep(states[n - 1], who[n - 1], steps[n - 1], states[n]);
    }
  }

  /** The pool never gets stuck: if a thread waits while a connection is free, a notified thread can
      run, and running it hands out a connection. */
  lemma NeverStuck(states: seq<State>, who: seq<Thread>, steps: seq<Step>, n: nat)
    requires IsRun(states, who, steps) && n < |states|
    requires SomeoneWaits(states[n].threads) && exists i | 0 <= i < |states[n].slots| :: states[n].slots[i].flag == Free
    ensures exists t :: t in states[n].threads && states[n].threads[t] == Notified &&
                        Enter(states[n], t).threads[t].Holding?
  {
    var s := states[n];
    PoolSafe(states, who, steps, n);
    CountZero(s.slots);
    assert s.available > 0;
    var t :| t in NotifiedThreads(s.threads);
    assert t in s.threads && s.threads[t] == Notified && Enter(s, t).threads[t].Holding?;
  }
}
