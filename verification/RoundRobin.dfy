/**
  The order in which schedule (student-distrib/task.c) picks tasks, over the runqueue as a
  sequence and the set of tasks that are active.
 */
module RoundRobin {
  import opened Machine

  /** Position of the first active task, or the length of the queue. */
  function First<T(==)>(q: seq<T>, act: set<T>): (i: nat)
    ensures i <= |q|
    ensures i < |q| ==> q[i] in act
    ensures forall j :: 0 <= j < i ==> q[j] !in act
  {
    if q == [] || q[0] in act then 0 else 1 + First(q[1..], act)
  }

  /** One next_task: the head goes to the tail. */
  function Turned<T>(q: seq<T>): (r: seq<T>)
    requires q != []
    ensures |r| == |q|
  {
    q[1..] + [q[0]]
  }

  /** The queue after one call of schedule: turned until just past its first active task. */
  function Scheduled<T(==)>(q: seq<T>, act: set<T>): seq<T>
    requires First(q, act) < |q|
  {
    q[First(q, act) + 1..] + q[..First(q, act) + 1]
  }

  /** The active tasks in queue order. */
  function Actives<T(==)>(q: seq<T>, act: set<T>): seq<T> {
    if q == [] then [] else (if q[0] in act then [q[0]] else []) + Actives(q[1..], act)
  }

  lemma {:induction false} ActivesAppend<T>(p: seq<T>, q: seq<T>, act: set<T>)
    ensures Actives(p + q, act) == Actives(p, act) + Actives(q, act)
    decreases |p|
  {
    if p == [] {
      assert p + q == q;
    } else {
      hide Actives;
      var x, r := p[0], p[1..];
      assert p == [x] + r && p + q == [x] + (r + q);
      ActivesAppend(r, q, act);
      ActivesCons(x, r, act);
      ActivesCons(x, r + q, act);
      SeqAssoc(if x in act then [x] else [], Actives(r, act), Actives(q, act));
    }
  }

  lemma {:induction false} NoneActive<T>(q: seq<T>, act: set<T>)
    requires forall j :: 0 <= j < |q| ==> q[j] !in act
    ensures Actives(q, act) == []
    decreases |q|
  {
    if q != [] {
      NoneActive(q[1..], act);
    }
  }

  lemma ActivesCons<T>(x: T, q: seq<T>, act: set<T>)
    ensures Actives([x] + q, act) == (if x in act then [x] else []) + Actives(q, act)
  {
    assert ([x] + q)[1..] == q;
  }

  lemma TurnedActives<T>(p: seq<T>, x: T, r: seq<T>, act: set<T>)
    requires (forall j :: 0 <= j < |p| ==> p[j] !in act) && x in act
    ensures Actives(p + ([x] + r), act) == [x] + Actives(r, act)
    ensures Actives(r + (p + [x]), act) == Actives(r, act) + [x]
  {
    NoneActive(p, act);
    NoneActive([], act);
    hide Actives;
    ActivesAppend(p, [x] + r, act);
    ActivesCons(x, r, act);
    ActivesAppend(r, p + [x], act);
    ActivesAppend(p, [x], act);
    ActivesCons(x, [], act);
    assert [x] + [] == [x];
  }

  /** schedule picks the first of the active tasks and moves it behind the others. */
  lemma ScheduledTurnsActives<T>(q: seq<T>, act: set<T>)
    requires First(q, act) < |q|
    ensures Actives(q, act) != [] && Actives(q, act)[0] == q[First(q, act)]
    ensures Actives(Scheduled(q, act), act) == Turned(Actives(q, act))
  {
    hide Actives, First;
    var i := First(q, act);
    var p, x, r := q[..i], q[i], q[i + 1..];
    assert q == p + ([x] + r) && q[..i + 1] == p + [x];
    TurnedActives(p, x, r, act);
  }

  lemma {:induction false} FirstIff<T>(q: seq<T>, act: set<T>)
    ensures First(q, act) < |q| <==> Actives(q, act) != []
    decreases |q|
  {
    if q != [] && q[0] !in act {
      FirstIff(q[1..], act);
    }
  }

  /** The task picked by the n-th call of schedule from now on, while statuses do not change. */
  function Chosen<T(==)>(q: seq<T>, act: set<T>, n: nat): T
    requires Actives(q, act) != []
    decreases n
  {
    FirstIff(q, act);
    ScheduledTurnsActives(q, act);
    if n == 0 then q[First(q, act)] else Chosen(Scheduled(q, act), act, n - 1)
  }

  lemma TurnedAt<T>(a: seq<T>, n: nat)
    requires a != [] && n > 0
    ensures Turned(a)[(n - 1) % |a|] == a[n % |a|]
  {
    var k := |a|;
    var m := (n - 1) % k;
    ModStep(n, k);
  }

  lemma ModStep(n: nat, k: nat)
    requires n > 0 && k > 0
    ensures n % k == if (n - 1) % k == k - 1 then 0 else (n - 1) % k + 1
  {
    var d, m := (n - 1) / k, (n - 1) % k;
    if m == k - 1 {
      assert n == (d + 1) * k;
      DivModUnique(n, d + 1, 0, k);
    } else {
      DivModUnique(n, d, m + 1, k);
    }
  }

  /** Round robin: the calls of schedule go around the active tasks in queue order. */
  lemma {:induction false} RoundRobinOrder<T>(q: seq<T>, act: set<T>, n: nat)
    requires Actives(q, act) != []
    ensures Chosen(q, act, n) == Actives(q, act)[n % |Actives(q, act)|]
    decreases n
  {
    hide Actives, Scheduled, First;
    FirstIff(q, act);
    ScheduledTurnsActives(q, act);
    if n == 0 {
      DivModUnique(0, 0, 0, |Actives(q, act)|);
    } else {
      RoundRobinOrder(Scheduled(q, act), act, n - 1);
      TurnedAt(Actives(q, act), n);
    }
  }

  lemma {:induction false} ActiveIndex<T>(q: seq<T>, act: set<T>, k: nat) returns (j: nat)
    requires k < |q| && q[k] in act
    ensures j <= k && j < |Actives(q, act)| && Actives(q, act)[j] == q[k]
    decreases k
  {
    if k == 0 {
      j := 0;
    } else {
      var i := ActiveIndex(q[1..], act, k - 1);
      j := if q[0] in act then i + 1 else i;
    }
  }

  /** An active task at position k of the queue is picked within k + 1 calls. */
  lemma ChosenSoon<T>(q: seq<T>, act: set<T>, k: nat) returns (n: nat)
    requires k < |q| && q[k] in act
    ensures n <= k && Actives(q, act) != [] && Chosen(q, act, n) == q[k]
  {
    n := ActiveIndex(q, act, k);
    RoundRobinOrder(q, act, n);
    DivModUnique(n, 0, n, |Actives(q, act)|);
  }

  ghost predicate Distinct<T>(q: seq<T>) {
    forall i, j :: 0 <= i < j < |q| ==> q[i] != q[j]
  }

  lemma {:induction false} ActivesDistinct<T>(q: seq<T>, act: set<T>)
    requires Distinct(q)
    ensures Distinct(Actives(q, act))
    ensures forall x :: x in Actives(q, act) <==> x in q && x in act
    decreases |q|
  {
    if q != [] {
      var r := q[1..];
      ActivesDistinct(r, act);
      assert q == [q[0]] + r;
      assert q[0] !in r;
      var a, b := Actives(q, act), Actives(r, act);
      assert a == if q[0] in act then [q[0]] + b else b;
      assert forall i :: 0 <= i < |b| ==> b[i] in b;
    }
  }

  /**
    In any window of as many calls as there are active tasks, each active task is picked
    exactly once: so between two picks of one task every other one has its turn once.
   */
  lemma EachOnce<T>(q: seq<T>, act: set<T>, start: nat, x: T)
    requires Distinct(q) && x in q && x in act
    ensures Actives(q, act) != []
    ensures exists n :: start <= n < start + |Actives(q, act)| && Chosen(q, act, n) == x
    ensures forall m, n ::
      start <= m < n < start + |Actives(q, act)| && Chosen(q, act, m) == x ==> Chosen(q, act, n) != x
  {
    ActivesDistinct(q, act);
    var a := Actives(q, act);
    var k := |a|;
    var j :| 0 <= j < k && a[j] == x;
    var n := InWindow(start, j, k);
    RoundRobinOrder(q, act, n);
    assert Chosen(q, act, n) == x;
    forall m, m' | start <= m < m' < start + k && Chosen(q, act, m) == x ensures Chosen(q, act, m') != x {
      RoundRobinOrder(q, act, m);
      RoundRobinOrder(q, act, m');
      OtherResidue(m, m', k);
    }
  }

  /** Some number of the window has residue j. */
  lemma InWindow(start: nat, j: nat, k: nat) returns (n: nat)
    requires j < k
    ensures start <= n < start + k && n % k == j
  {
    var d, r := start / k, start % k;
    if j >= r {
      n := d * k + j;
      DivModUnique(n, d, j, k);
    } else {
      n := (d + 1) * k + j;
      DivModUnique(n, d + 1, j, k);
    }
  }

  lemma OtherResidue(m: nat, n: nat, k: nat)
    requires k > 0 && m < n < m + k
    ensures m % k != n % k
  {
    if m % k == n % k {
      MultiplesApart(m / k, n / k, k);
    }
  }

  /** The task that the loop of schedule looks at in its n-th round, if it gets that far. */
  function Visited<T>(q: seq<T>, n: nat): T
    requires q != []
    decreases n
  {
    if n == 0 then q[0] else Visited(Turned(q), n - 1)
  }

  /**
    The loop ends exactly when some task is active. Its own bound never ends it: the
    remaining-tasks counter is unsigned and tested for being at least 0.
   */
  lemma LoopEndsIff<T>(q: seq<T>, act: set<T>)
    requires q != []
    ensures (exists n: nat :: Visited(q, n) in act) <==> exists i :: 0 <= i < |q| && q[i] in act
  {
    forall n: nat ensures Visited(q, n) in q {
      VisitedIn(q, n);
    }
    if i :| 0 <= i < |q| && q[i] in act {
      VisitedAt(q, i);
      assert Visited(q, i) in act;
    }
  }

  lemma {:induction false} VisitedIn<T>(q: seq<T>, n: nat)
    requires q != []
    ensures Visited(q, n) in q
    decreases n
  {
    if n > 0 {
      VisitedIn(Turned(q), n - 1);
    }
  }

  lemma {:induction false} VisitedAt<T>(q: seq<T>, n: nat)
    requires n < |q|
    ensures Visited(q, n) == q[n]
    decreases n
  {
    if n > 0 {
      VisitedAt(Turned(q), n - 1);
    }
  }
}
