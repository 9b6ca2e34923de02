/** The mutexes of the shared databases, as any number of connections take and release them. */
module BtreeMutexes {

  /** Where a thread is in sqlite3BtreeEnter(): outside, about to try the mutex at an address,
      releasing the mutexes after that address, or acquiring a list of mutexes one by one. */
  datatype Place =
    | Outside
    | Try(a: nat)
    | Release(a: nat)
    | Acquire(queue: seq<nat>)

  /** A thread with its connection: wantToLock and locked for each shared database it has attached,
      which are kept in ascending order of address. */
  datatype Thread = Thread(list: seq<nat>, want: map<nat, nat>, locked: set<nat>, at: Place)

  /** All threads, and the owner of each mutex that is held. */
  datatype System = System(threads: map<nat, Thread>, owner: map<nat, nat>)

  predicate Ascending(s: seq<nat>) {
    forall i: nat, j: nat :: i < j < |s| ==> s[i] < s[j]
  }

  function Want(t: Thread, a: nat): nat {
    if a in t.want then t.want[a] else 0
  }

  /** The mutexes to be taken in order, once those after address a have been released. */
  function Wanted(t: Thread, list: seq<nat>, a: nat): seq<nat> {
    if list == [] then []
    else
      var rest := Wanted(t, list[1..], a);
      if list[0] == a || (list[0] > a && Want(t, list[0]) > 0) then [list[0]] + rest else rest
  }

  // ---- what holds of a thread ----------------------------------------------------------------------

  /** The mutexes held: all those wanted, but for the stages of taking one. */
  ghost predicate HeldOk(t: Thread) {
    match t.at
    case Outside => forall a: nat :: Held(t, a) <==> a in t.list && Want(t, a) > 0
    case Try(b) => WaitingOk(t, b) && forall a: nat :: a != b ==> (Held(t, a) <==> a in t.list && Want(t, a) > 0)
    case Release(b) => WaitingOk(t, b) && forall a: nat :: a < b ==> (Held(t, a) <==> a in t.list && Want(t, a) > 0)
    case Acquire(queue) => AcquiringOk(t, queue)
  }

  /** The mutex at b is wanted and not held; only wanted mutexes are held. */
  ghost predicate WaitingOk(t: Thread, b: nat) {
    b in t.list && Want(t, b) > 0 && !Held(t, b) && forall a: nat :: Held(t, a) ==> a in t.list && Want(t, a) > 0
  }

  /** The mutexes still to be acquired are wanted, all come after those held, and no others are missing. */
  ghost predicate AcquiringOk(t: Thread, queue: seq<nat>) {
    && queue != [] && Ascending(queue)
    && (forall a: nat :: Held(t, a) <==> a in t.list && Want(t, a) > 0 && a !in queue)
    && (forall a: nat :: a in queue ==> a in t.list && Want(t, a) > 0)
    && forall a: nat :: Held(t, a) ==> a < queue[0]
  }

  predicate Held(t: Thread, a: nat) {
    a in t.locked
  }

  ghost predicate ThreadOk(t: Thread) {
    Ascending(t.list) && HeldOk(t)
  }

  /** Each mutex is owned by the one thread that holds it. */
  ghost predicate Owned(s: System) {
    && (forall t, a: nat :: t in s.threads && Held(s.threads[t], a) ==> a in s.owner && s.owner[a] == t)
    && (forall a <- s.owner :: s.owner[a] in s.threads && Held(s.threads[s.owner[a]], a))
  }

  ghost predicate Good(s: System) {
    (forall t <- s.threads :: ThreadOk(s.threads[t])) && Owned(s)
  }

  // ---- steps ---------------------------------------------------------------------------------------

  datatype Action = Enter(a: nat) | Leave(a: nat) | TryIt | ReleaseOne(b: nat) | AcquireNext

  /** What a thread does next, if it can: mutex operations act on the owners. */
  ghost predicate Step(s: System, t: nat, act: Action, s': System) {
    t in s.threads &&
    var th := s.threads[t];
    match act
    case Enter(a) =>
      th.at.Outside? && a in th.list && s'.owner == s.owner &&
      var th1 := th.(want := th.want[a := Want(th, a) + 1]);
      s'.threads == s.threads[t := if Held(th, a) then th1 else th1.(at := Try(a))]
    case Leave(a) =>
      th.at.Outside? && a in th.list && Want(th, a) > 0 &&
      var th1 := th.(want := th.want[a := Want(th, a) - 1]);
      if Want(th1, a) > 0 then s' == s.(threads := s.threads[t := th1])
      else s' == System(s.threads[t := th1.(locked := th.locked - {a})], s.owner - {a})
    case TryIt =>
      th.at.Try? &&
      if th.at.a !in s.owner then
        s' == System(s.threads[t := th.(locked := th.locked + {th.at.a}, at := Outside)], s.owner[th.at.a := t])
      else s' == s.(threads := s.threads[t := th.(at := Release(th.at.a))])
    case ReleaseOne(b) =>
      th.at.Release? &&
      if exists x: nat :: x in th.list && x > th.at.a && Held(th, x) then
        b in th.list && b > th.at.a && Held(th, b)
        && (forall x: nat :: x in th.list && th.at.a < x < b ==> !Held(th, x))
        && s' == System(s.threads[t := th.(locked := th.locked - {b})], s.owner - {b})
      else s' == s.(threads := s.threads[t := th.(at := Acquire(Wanted(th, th.list, th.at.a)))])
    case AcquireNext =>
      th.at.Acquire? && th.at.queue != [] && th.at.queue[0] !in s.owner &&
      var a, rest := th.at.queue[0], th.at.queue[1..];
      s' == System(s.threads[t := th.(locked := th.locked + {a}, at := if rest == [] then Outside else Acquire(rest))],
                   s.owner[a := t])
  }

  /** A thread waits for a mutex that another holds. */
  predicate Blocked(s: System, t: nat) {
    t in s.threads && s.threads[t].at.Acquire? && s.threads[t].at.queue != [] && s.threads[t].at.queue[0] in s.owner
  }

  function WaitsFor(s: System, t: nat): nat
    requires Blocked(s, t)
  {
    s.owner[s.threads[t].at.queue[0]]
  }

  /** The address a blocked thread waits at. */
  function Awaited(s: System, t: nat): nat
    requires Blocked(s, t)
  {
    s.threads[t].at.queue[0]
  }

  // ---- every step keeps the system good -------------------------------------------------------------

  lemma {:induction false} WantedIs(t: Thread, list: seq<nat>, a: nat)
    requires Ascending(list)
    ensures Ascending(Wanted(t, list, a))
    ensures forall x: nat :: x in Wanted(t, list, a) <==> x in list && (x == a || (x > a && Want(t, x) > 0))
  {
    if list != [] {
      var tail := list[1..];
      assert Ascending(tail);
      WantedIs(t, tail, a);
      forall x: nat | x in tail
        ensures x > list[0]
      {
        var i: nat :| i < |tail| && tail[i] == x;
        assert list[i + 1] == x;
      }
      var w, rest := Wanted(t, list, a), Wanted(t, tail, a);
      forall i: nat, j: nat | i < j < |w|
        ensures w[i] < w[j]
      {
        if w != rest {
          assert w[j] == rest[j - 1];
          if i == 0 {
            assert rest[j - 1] in rest;
          } else {
            assert w[i] == rest[i - 1];
          }
        }
      }
      forall x: nat
        ensures x in w <==> x in list && (x == a || (x > a && Want(t, x) > 0))
      {
        assert x in list <==> x == list[0] || x in tail;
      }
    }
  }

  /** When the later mutexes have been released, what is to be acquired comes after all that is held. */
  lemma AcquireReady(t: Thread, b: nat)
    requires ThreadOk(t) && t.at == Release(b) && !exists x: nat :: x in t.list && x > b && Held(t, x)
    ensures ThreadOk(t.(at := Acquire(Wanted(t, t.list, b))))
  {
    WantedIs(t, t.list, b);
    var queue := Wanted(t, t.list, b);
    var t' := t.(at := Acquire(queue));
    assert b in queue;
    forall x: nat | Held(t, x)
      ensures x < b
    {
      assert x in t.list;
    }
    FirstIsLeast(queue, b);
    forall a: nat
      ensures Held(t', a) <==> a in t'.list && Want(t', a) > 0 && a !in queue
    {
    }
    assert queue[0] in queue;
  }

  lemma FirstIsLeast(s: seq<nat>, a: nat)
    requires Ascending(s) && a in s
    ensures s[0] <= a
  {
    var i: nat :| i < |s| && s[i] == a;
  }

  lemma HeldMore(t: Thread, a: nat, at: Place)
    ensures forall x: nat :: Held(t.(locked := t.locked + {a}, at := at), x) <==> Held(t, x) || x == a
  {
  }

  /** The first mutex of the queue has been acquired. */
  lemma AcquiredOk(t: Thread)
    requires ThreadOk(t) && t.at.Acquire?
    ensures var a, rest := t.at.queue[0], t.at.queue[1..];
      ThreadOk(t.(locked := t.locked + {a}, at := if rest == [] then Outside else Acquire(rest)))
  {
    var queue := t.at.queue;
    var a, rest := queue[0], queue[1..];
    var t' := t.(locked := t.locked + {a}, at := if rest == [] then Outside else Acquire(rest));
    forall x: nat
      ensures x in queue <==> x == a || x in rest
      ensures x in rest ==> x > a
    {
      if x in rest {
        var i: nat :| i < |rest| && rest[i] == x;
        assert queue[i + 1] == x;
      }
    }
    HeldMore(t, a, t'.at);
    if rest != [] {
      forall i: nat, j: nat | i < j < |rest|
        ensures rest[i] < rest[j]
      {
        assert rest[i] == queue[i + 1] && rest[j] == queue[j + 1];
      }
      assert rest[0] in rest;
    }
  }

  lemma EnterOk(t: Thread, a: nat)
    requires ThreadOk(t) && t.at.Outside? && a in t.list
    ensures var t1 := t.(want := t.want[a := Want(t, a) + 1]);
      ThreadOk(if Held(t, a) then t1 else t1.(at := Try(a)))
  {
    var t1 := t.(want := t.want[a := Want(t, a) + 1]);
    var t2 := if Held(t, a) then t1 else t1.(at := Try(a));
    forall x: nat
      ensures Held(t2, x) == Held(t, x) && (Want(t2, x) > 0 <==> Want(t, x) > 0 || x == a)
    {
    }
  }

  lemma LeaveOk(t: Thread, a: nat)
    requires ThreadOk(t) && t.at.Outside? && a in t.list && Want(t, a) > 0
    ensures var t1 := t.(want := t.want[a := Want(t, a) - 1]);
      ThreadOk(if Want(t1, a) > 0 then t1 else t1.(locked := t.locked - {a}))
  {
  }

  lemma TriedOk(t: Thread)
    requires ThreadOk(t) && t.at.Try?
    ensures ThreadOk(t.(locked := t.locked + {t.at.a}, at := Outside)) && ThreadOk(t.(at := Release(t.at.a)))
  {
  }

  lemma ReleasedOk(t: Thread, b: nat)
    requires ThreadOk(t) && t.at.Release? && b > t.at.a
    ensures ThreadOk(t.(locked := t.locked - {b}))
  {
  }

  lemma ThreadStep(s: System, t: nat, act: Action, s': System)
    requires Good(s) && Step(s, t, act, s')
    ensures t in s'.threads && ThreadOk(s'.threads[t])
  {
    hide ThreadOk, Owned, Held, Want;
    var th := s.threads[t];
    match act
    case Enter(a) => EnterOk(th, a);
    case Leave(a) => LeaveOk(th, a);
    case TryIt => TriedOk(th);
    case AcquireNext => AcquiredOk(th);
    case ReleaseOne(b) =>
      if exists x: nat :: x in th.list && x > th.at.a && Held(th, x) {
        ReleasedOk(th, b);
      } else {
        AcquireReady(th, th.at.a);
      }
  }

  /** A step that takes or gives up no mutex. */
  lemma OwnedSame(s: System, t: nat, th: Thread)
    requires Owned(s) && t in s.threads && th.locked == s.threads[t].locked
    ensures Owned(s.(threads := s.threads[t := th]))
  {
  }

  lemma OwnedTaken(s: System, t: nat, th: Thread, a: nat)
    requires Owned(s) && t in s.threads && a !in s.owner && th.locked == s.threads[t].locked + {a}
    ensures Owned(System(s.threads[t := th], s.owner[a := t]))
  {
  }

  lemma OwnedGiven(s: System, t: nat, th: Thread, a: nat)
    requires Owned(s) && t in s.threads && Held(s.threads[t], a) && th.locked == s.threads[t].locked - {a}
    ensures Owned(System(s.threads[t := th], s.owner - {a}))
  {
    var s' := System(s.threads[t := th], s.owner - {a});
    assert s.owner[a] == t;
    forall u, x: nat | u in s'.threads && Held(s'.threads[u], x)
      ensures x in s'.owner && s'.owner[x] == u
    {
      assert u != t ==> s'.threads[u] == s.threads[u];
      assert Held(s.threads[u], x);
    }
    forall x | x in s'.owner
      ensures s'.owner[x] in s'.threads && Held(s'.threads[s'.owner[x]], x)
    {
      assert Held(s.threads[s.owner[x]], x);
    }
  }

  lemma OwnedStep(s: System, t: nat, act: Action, s': System)
    requires Good(s) && Step(s, t, act, s')
    ensures Owned(s')
  {
    hide Owned, ThreadOk;
    var th := s.threads[t];
    assert t in s'.threads;
    var th' := s'.threads[t];
    match act
    case Enter(a) => OwnedSame(s, t, th');
    case Leave(a) =>
      if Want(th', a) > 0 {
        OwnedSame(s, t, th');
      } else {
        ThreadIsOk(s, t);
        WantedIsHeld(th, a);
        OwnedGiven(s, t, th', a);
      }
    case TryIt =>
      if th.at.a !in s.owner {
        OwnedTaken(s, t, th', th.at.a);
      } else {
        OwnedSame(s, t, th');
      }
    case ReleaseOne(b) =>
      if exists x: nat :: x in th.list && x > th.at.a && Held(th, x) {
        OwnedGiven(s, t, th', b);
      } else {
        OwnedSame(s, t, th');
      }
    case AcquireNext => OwnedTaken(s, t, th', th.at.queue[0]);
  }

  lemma ThreadIsOk(s: System, t: nat)
    requires Good(s) && t in s.threads
    ensures ThreadOk(s.threads[t])
  {
  }

  lemma WantedIsHeld(t: Thread, a: nat)
    requires ThreadOk(t) && t.at.Outside? && a in t.list && Want(t, a) > 0
    ensures Held(t, a)
  {
  }

  /** Every step of every thread keeps the system good. */
  lemma StepKeepsGood(s: System, t: nat, act: Action, s': System)
    requires Good(s) && Step(s, t, act, s')
    ensures Good(s')
  {
    ThreadStep(s, t, act, s');
    OwnedStep(s, t, act, s');
    forall u | u in s'.threads
      ensures ThreadOk(s'.threads[u])
    {
      if u != t {
        assert s'.threads[u] == s.threads[u];
      }
    }
  }

  datatype Move = Move(t: nat, act: Action)

  /** A run of the system: any threads, in any order. */
  ghost predicate Run(states: seq<System>, moves: seq<Move>) {
    |states| == |moves| + 1 && forall i: nat :: i < |moves| ==> MoveAt(states, moves, i)
  }

  ghost predicate MoveAt(states: seq<System>, moves: seq<Move>, i: nat) {
    i < |moves| && i + 1 < |states| && Step(states[i], moves[i].t, moves[i].act, states[i + 1])
  }

  /** At the start no mutex is held or wanted. */
  ghost predicate Initial(s: System) {
    s.owner == map[] &&
    forall t <- s.threads :: Ascending(s.threads[t].list) && s.threads[t].at == Outside && s.threads[t].locked == {}
      && forall a: nat :: Want(s.threads[t], a) == 0
  }

  lemma {:induction false} RunsAreGood(states: seq<System>, moves: seq<Move>, i: nat)
    requires Run(states, moves) && Initial(states[0]) && i < |states|
    ensures Good(states[i])
  {
    if i > 0 {
      RunsAreGood(states, moves, i - 1);
      assert MoveAt(states, moves, i - 1);
      StepKeepsGood(states[i - 1], moves[i - 1].t, moves[i - 1].act, states[i]);
    }
  }

  /** How often thread t has entered the mutex at a in the first i moves, less how often it has left it. */
  function Balance(moves: seq<Move>, i: nat, t: nat, a: nat): int
    requires i <= |moves|
  {
    if i == 0 then 0
    else Balance(moves, i - 1, t, a) + if moves[i - 1].t != t then 0
                                       else if moves[i - 1].act == Enter(a) then 1
                                       else if moves[i - 1].act == Leave(a) then -1 else 0
  }

  lemma StepWants(s: System, t: nat, act: Action, s': System, u: nat, a: nat)
    requires Step(s, t, act, s') && u in s.threads
    ensures u in s'.threads && s'.threads[u].list == s.threads[u].list
    ensures Want(s'.threads[u], a) == Want(s.threads[u], a)
      + if t != u then 0 else if act == Enter(a) then 1 else if act == Leave(a) then -1 else 0
  {
  }

  /** wantToLock counts the calls: each thread has entered a mutex so many times more than it has left it. */
  lemma {:induction false} WantIsBalance(states: seq<System>, moves: seq<Move>, i: nat, t: nat, a: nat)
    requires Run(states, moves) && Initial(states[0]) && i < |states| && t in states[0].threads
    ensures t in states[i].threads && states[i].threads[t].list == states[0].threads[t].list
    ensures Want(states[i].threads[t], a) == Balance(moves, i, t, a)
  {
    if i > 0 {
      WantIsBalance(states, moves, i - 1, t, a);
      assert MoveAt(states, moves, i - 1);
      StepWants(states[i - 1], moves[i - 1].t, moves[i - 1].act, states[i], t, a);
    }
  }

  /** In every run, a thread that is not within sqlite3BtreeEnter() holds exactly the mutexes that it has entered more
      often than left. */
  lemma HeldIsBalance(states: seq<System>, moves: seq<Move>, i: nat, t: nat, a: nat)
    requires Run(states, moves) && Initial(states[0]) && i < |states| && t in states[0].threads
    requires t in states[i].threads && states[i].threads[t].at.Outside?
    ensures a in states[i].threads[t].locked <==> a in states[0].threads[t].list && Balance(moves, i, t, a) > 0
  {
    WantIsBalance(states, moves, i, t, a);
    RunsAreGood(states, moves, i);
    LockedIsWanted(states[i], t);
  }

  // ---- what follows ----------------------------------------------------------------------------------

  /** When sqlite3BtreeEnter() has returned, the mutexes held are those wanted. */
  lemma LockedIsWanted(s: System, t: nat)
    requires Good(s) && t in s.threads && s.threads[t].at.Outside?
    ensures forall a: nat :: a in s.threads[t].locked <==> a in s.threads[t].list && Want(s.threads[t], a) > 0
  {
    assert ThreadOk(s.threads[t]);
    assert forall a: nat :: a in s.threads[t].locked <==> Held(s.threads[t], a);
  }

  /** No thread waits while it holds a mutex at the same or a larger address. */
  lemma WaitsAbove(s: System, t: nat, a: nat)
    requires Good(s) && Blocked(s, t) && a in s.threads[t].locked
    ensures a < Awaited(s, t)
  {
    assert ThreadOk(s.threads[t]) && Held(s.threads[t], a);
  }

  /** Along the wait-for relation the awaited addresses increase, so it has no cycle. */
  lemma WaitsIncrease(s: System, t: nat)
    requires Good(s) && Blocked(s, t)
    ensures WaitsFor(s, t) in s.threads && WaitsFor(s, t) != t && Awaited(s, t) in s.threads[WaitsFor(s, t)].locked
    ensures Blocked(s, WaitsFor(s, t)) ==> Awaited(s, t) < Awaited(s, WaitsFor(s, t))
  {
    var u, a := WaitsFor(s, t), Awaited(s, t);
    assert Held(s.threads[u], a);
    if Blocked(s, u) {
      WaitsAbove(s, u, a);
    }
    if u == t {
      WaitsAbove(s, t, a);
    }
  }

  /** The mutexes held at addresses above a. */
  ghost function Above(s: System, a: nat): set<nat> {
    set x | x in s.owner && x > a
  }

  /** Deadlock freedom: behind every blocked thread there is one that holds a mutex and can go on. */
  lemma {:induction false} NoDeadlock(s: System, t: nat) returns (u: nat, act: Action, s': System)
    requires Good(s) && Blocked(s, t)
    ensures u in s.threads && s.threads[u].locked != {} && !Blocked(s, u) && Step(s, u, act, s')
    decreases Above(s, Awaited(s, t))
  {
    WaitsIncrease(s, t);
    var v := WaitsFor(s, t);
    if Blocked(s, v) {
      assert Awaited(s, v) in s.owner;
      assert Awaited(s, v) in Above(s, Awaited(s, t)) && Awaited(s, v) !in Above(s, Awaited(s, v));
      u, act, s' := NoDeadlock(s, v);
    } else {
      u := v;
      act, s' := CanStep(s, v, Awaited(s, t));
    }
  }

  /** A thread that is not blocked can go on; outside sqlite3BtreeEnter(), by leaving what it holds. */
  lemma CanStep(s: System, t: nat, a: nat) returns (act: Action, s': System)
    requires Good(s) && t in s.threads && !Blocked(s, t) && a in s.threads[t].locked
    ensures Step(s, t, act, s')
  {
    var th := s.threads[t];
    assert ThreadOk(th) && Held(th, a);
    match th.at
    case Outside =>
      var th1 := th.(want := th.want[a := Want(th, a) - 1]);
      act := Leave(a);
      s' := if Want(th1, a) > 0 then s.(threads := s.threads[t := th1])
            else System(s.threads[t := th1.(locked := th.locked - {a})], s.owner - {a});
    case Try(b) =>
      act := TryIt;
      s' := if b !in s.owner then System(s.threads[t := th.(locked := th.locked + {b}, at := Outside)], s.owner[b := t])
            else s.(threads := s.threads[t := th.(at := Release(b))]);
    case Release(b) =>
      if x: nat :| x in th.list && x > b && Held(th, x) {
        var y := LeastHeld(th, b, x);
        act := ReleaseOne(y);
        s' := System(s.threads[t := th.(locked := th.locked - {y})], s.owner - {y});
      } else {
        act := ReleaseOne(0);
        s' := s.(threads := s.threads[t := th.(at := Acquire(Wanted(th, th.list, b)))]);
      }
    case Acquire(queue) =>
      var c, rest := queue[0], queue[1..];
      act := AcquireNext;
      s' := System(s.threads[t := th.(locked := th.locked + {c}, at := if rest == [] then Outside else Acquire(rest))],
                   s.owner[c := t]);
  }

  lemma {:induction false} LeastHeld(t: Thread, b: nat, x: nat) returns (y: nat)
    requires x in t.list && x > b && Held(t, x)
    ensures y in t.list && y > b && Held(t, y) && forall z: nat :: z in t.list && b < z < y ==> !Held(t, z)
    decreases x
  {
    if z: nat :| z in t.list && b < z < x && Held(t, z) {
      y := LeastHeld(t, b, z);
    } else {
      y := x;
    }
  }

  // ---- the order of the list -------------------------------------------------------------------------

  /** sqlite3BtreeOpen(): the new Btree is linked into its connection's list, found from any element. */
  method Link(list: seq<nat>, start: nat, a: nat) returns (list': seq<nat>)
    requires Ascending(list) && (list == [] || start < |list|) && a !in list
    ensures Ascending(list') && forall x: nat :: x in list' <==> x in list || x == a
    ensures |list'| == |list| + 1
  {
    if list == [] {
      return [a];
    }
    var i: nat := start;
    while i > 0
      invariant i < |list|
    {
      i := i - 1;
    }
    if a < list[i] {
      list' := [a] + list;
    } else {
      while i + 1 < |list| && list[i + 1] < a
        invariant i < |list| && list[i] < a
      {
        i := i + 1;
      }
      list' := list[..i + 1] + [a] + list[i + 1..];
    }
  }
}
