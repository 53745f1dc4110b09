/** Which one of a repeated command runs.  The user is told that it is the first;
    here is when it is.  Every pass whose front command pulls the name turns the
    waiting commands of that name round by one, so it depends on the number of
    these passes, which is 0 exactly if no command given before needs the name. */
module TaskRepeats {
  import opened Arith
  import opened TaskOrder

  /** The commands of one name among `ts`, in their order. */
  function Of(ts: seq<Task>, n: Name): (r: seq<Task>)
    ensures r != [] <==> n in Names(ts)
    ensures forall t :: t in r <==> t in ts && t.name == n
  {
    if ts == [] then [] else
      assert ts == [ts[0]] + ts[1..];
      NamesOfParts([ts[0]], ts[1..]);
      (if ts[0].name == n then [ts[0]] else []) + Of(ts[1..], n)
  }

  /** The commands before the first one of that name. */
  function Before(ts: seq<Task>, n: Name): seq<Task> {
    if ts == [] || ts[0].name == n then [] else [ts[0]] + Before(ts[1..], n)
  }

  ghost predicate Distinct(ts: seq<Task>) {
    forall i, j :: 0 <= i < j < |ts| ==> ts[i] != ts[j]
  }

  /** Where the command is that comes first after `k` commands were turned `m` times. */
  function FirstAfter(m: nat, k: nat): (i: nat)
    requires k > 0
    ensures i < k && (i == 0 <==> m % k == 0)
  {
    if m % k == 0 then 0 else k - m % k
  }

  lemma FirstAfterOneMore(m: nat, k: nat)
    requires k > 0
    ensures var i := FirstAfter(m, k); FirstAfter(m + 1, k) == if i == 0 then k - 1 else i - 1
  {
    var q, r := m / k, m % k;
    assert m == k * q + r;
    if r == k - 1 {
      MulDist(k, q, 1);
      DivUnique(m + 1, k, q + 1, 0);
    } else {
      DivUnique(m + 1, k, q, r + 1);
    }
  }

  /** The last command becomes the first. */
  function Turn(ts: seq<Task>): seq<Task>
    requires ts != []
  {
    [ts[|ts| - 1]] + ts[..|ts| - 1]
  }

  /** The same `m` times. */
  function Turned(ts: seq<Task>, m: nat): (r: seq<Task>)
    requires ts != []
    ensures |r| == |ts| && r[0] == ts[FirstAfter(m, |ts|)]
  {
    var i := FirstAfter(m, |ts|);
    ts[i..] + ts[..i]
  }

  lemma TurnedNever(ts: seq<Task>)
    requires ts != []
    ensures Turned(ts, 0) == ts
  {
  }

  lemma TurnedAgain(ts: seq<Task>, m: nat)
    requires ts != []
    ensures Turned(ts, m + 1) == Turn(Turned(ts, m))
  {
    var k := |ts|;
    FirstAfterOneMore(m, k);
    var i, j := FirstAfter(m, k), FirstAfter(m + 1, k);
    if i == 0 {
      assert Turned(ts, m) == ts;
    } else {
      assert ts[..i] == ts[..j] + [ts[j]] && ts[j..] == [ts[j]] + ts[i..];
      assert Turned(ts, m) == (ts[i..] + ts[..j]) + [ts[j]];
    }
  }

  lemma {:induction false} OfParts(a: seq<Task>, b: seq<Task>, n: Name)
    ensures Of(a + b, n) == Of(a, n) + Of(b, n)
  {
    hide Names;
    if a == [] {
      assert a + b == b;
    } else {
      assert (a + b)[1..] == a[1..] + b;
      OfParts(a[1..], b, n);
    }
  }

  lemma OfOneMore(ts: seq<Task>, t: Task, n: Name)
    ensures Of(ts + [t], n) == Of(ts, n) + if t.name == n then [t] else []
  {
    OfParts(ts, [t], n);
  }

  lemma {:induction false} LookupIsLast(ts: seq<Task>, n: Name)
    requires n in Names(ts) && Of(ts, n) != []
    ensures var o := Of(ts, n); Lookup(ts, n) == o[|o| - 1]
  {
    hide Of, Names;
    assert ts != [] by { assert Lookup(ts, n) in ts; }
    var k := |ts| - 1;
    assert ts == ts[..k] + [ts[k]];
    OfOneMore(ts[..k], ts[k], n);
    if ts[k].name != n { LookupIsLast(ts[..k], n); }
  }

  /** What is put to the front comes first among its name, and leaves others alone. */
  lemma OfToFront(ts: seq<Task>, i: nat, n: Name)
    requires i < |ts|
    ensures Of(ToFront(ts, i), n)
            == (if ts[i].name == n then [ts[i]] else []) + Of(ts[..i], n) + Of(ts[i + 1..], n)
    ensures Of(ts, n) == Of(ts[..i], n) + (if ts[i].name == n then [ts[i]] else []) + Of(ts[i + 1..], n)
  {
    assert ts == ts[..i] + [ts[i]] + ts[i + 1..];
    OfParts([ts[i]] + ts[..i], ts[i + 1..], n);
    OfParts([ts[i]], ts[..i], n);
    OfParts(ts[..i] + [ts[i]], ts[i + 1..], n);
    OfParts(ts[..i], [ts[i]], n);
    assert Of([ts[i]], n) == if ts[i].name == n then [ts[i]] else [];
  }

  lemma TakenOut(o: seq<Task>, p: seq<Task>, a: seq<Task>, x: Task, b: seq<Task>)
    requires o != [] && x == o[|o| - 1] && p == a + [x] + b && Distinct(p) && (p == o || p == Turn(o))
    ensures [x] + a + b == Turn(o)
  {
    assert p[|a|] == x;
    if p == o {
      assert |a| == |p| - 1 && b == [] && a == o[..|o| - 1];
    } else {
      assert p[0] == x;
      assert a == [] && b == p[1..] == o[..|o| - 1];
    }
  }

  /** Pulling the last command of a name turns those of that name; doing it again
      in the same pass changes nothing. */
  lemma PulledTurns(was: seq<Task>, ts: seq<Task>, dep: Name, n: Name)
    requires dep in Names(was) && Lookup(was, dep) in ts && Of(was, dep) != []
    requires dep == n ==> Distinct(Of(ts, n)) && (Of(ts, n) == Of(was, n) || Of(ts, n) == Turn(Of(was, n)))
    ensures Of(Pulled(was, ts, dep), n) == if dep != n then Of(ts, n) else Turn(Of(was, dep))
  {
    hide Of, Lookup, Names, ToFront, Place, Distinct, Turn;
    var x := Lookup(was, dep);
    var i := Place(ts, x);
    OfToFront(ts, i, n);
    if dep == n {
      LookupIsLast(was, n);
      TakenOut(Of(was, n), Of(ts, n), Of(ts[..i], n), x, Of(ts[i + 1..], n));
    }
  }

  lemma TurnIsDistinct(ts: seq<Task>)
    requires ts != [] && Distinct(ts)
    ensures Distinct(Turn(ts))
  {
  }

  lemma {:induction false} DepsTurn(was: seq<Task>, done: set<Name>, deps: seq<Name>, k: nat, n: Name)
    requires k <= |deps| && n in Names(was) && n !in done && Of(was, n) != [] && Distinct(Of(was, n))
    ensures Of(DepsPulled(was, done, deps, k), n) == if n in deps[..k] then Turn(Of(was, n)) else Of(was, n)
  {
    hide Of, Names, Lookup, Pulled, Distinct, Turn;
    if k > 0 {
      DepsTurn(was, done, deps, k - 1, n);
      TurnIsDistinct(Of(was, n));
      var ts, dep := DepsPulled(was, done, deps, k - 1), deps[k - 1];
      if dep !in done {
        if dep in Names(was) { PulledTurns(was, ts, dep, n); } else { OfNew(Default(dep, k - 1), ts, n); }
      }
    }
  }

  lemma OfNew(t: Task, ts: seq<Task>, n: Name)
    ensures t.name != n ==> Of([t] + ts, n) == Of(ts, n)
  {
    OfParts([t], ts, n);
  }

  lemma {:induction false} OrderTurn(was: seq<Task>, done: set<Name>, tasks: seq<Task>, order: seq<Name>, k: nat,
      n: Name)
    requires k <= |order| && (forall t :: t in was ==> t in tasks)
    requires n in Names(was) && n !in done && Of(was, n) != [] && Distinct(Of(was, n))
    requires Of(tasks, n) == Of(was, n) || Of(tasks, n) == Turn(Of(was, n))
    ensures Of(OrderPulled(was, done, tasks, order, k), n) == if n in order[..k] then Turn(Of(was, n)) else Of(tasks, n)
  {
    hide Of, Names, Lookup, Pulled, Distinct, Turn;
    if k > 0 {
      OrderTurn(was, done, tasks, order, k - 1, n);
      TurnIsDistinct(Of(was, n));
      var ts, dep := OrderPulled(was, done, tasks, order, k - 1), order[k - 1];
      if dep in Names(was) && dep !in done { PulledTurns(was, ts, dep, n); }
    }
  }

  /** The command has the name among its dependencies or order dependencies. */
  predicate Pulls(g: Graph, t: Task, n: Name) {
    n in g.deps(t.name) || n in g.order(t.name)
  }

  /** A command does not run before what it pulls. */
  lemma PulledFirst(g: Graph, ts: seq<Task>, done: set<Name>, n: Name)
    requires ts != [] && n in Names(ts) && n !in done
    ensures Pulls(g, ts[0], n) ==> !MayRun(g, ts, done)
  {
  }

  /** A pass turns the waiting commands of a name, queues the first of them, or
      leaves them alone. */
  lemma PassTurns(g: Graph, l: Lists, n: Name)
    requires n in Names(l.tasks) && n !in Names(l.run) && Of(l.tasks, n) != [] && Distinct(Of(l.tasks, n))
    ensures l.tasks != []
    ensures var p, o := PassOf(g, l), Of(l.tasks, n);
            if Pulls(g, l.tasks[0], n) then p.run == l.run && Of(p.tasks, n) == Turn(o)
            else if l.tasks[0].name == n && MayRun(g, l.tasks, Names(l.run)) then p.run == l.run + [o[0]]
            else n !in Names(p.run) && Of(p.tasks, n) == o
  {
    assert l.tasks != [] by { assert Of([], n) == []; }
    hide Of, Names, Turn, Distinct, MayRun, DepsPulled, OrderPulled, Lookup;
    PulledFirst(g, l.tasks, Names(l.run), n);
    if MayRun(g, l.tasks, Names(l.run)) {
      QueuedOf(l, n);
    } else {
      WaitingTurns(g, l, n);
    }
  }

  lemma WaitingTurns(g: Graph, l: Lists, n: Name)
    requires l.tasks != [] && n in Names(l.tasks) && n !in Names(l.run) && Of(l.tasks, n) != []
        && Distinct(Of(l.tasks, n))
    requires !MayRun(g, l.tasks, Names(l.run))
    ensures var p, o := PassOf(g, l), Of(l.tasks, n);
            p.run == l.run && Of(p.tasks, n) == if Pulls(g, l.tasks[0], n) then Turn(o) else o
  {
    hide Of, Names, Turn, Distinct, MayRun, DepsPulled, OrderPulled, Lookup;
    var front, done := l.tasks[0], Names(l.run);
    var deps, order := g.deps(front.name), g.order(front.name);
    DepsTurn(l.tasks, done, deps, |deps|, n);
    OrderTurn(l.tasks, done, DepsPulled(l.tasks, done, deps, |deps|), order, |order|, n);
    assert deps[..|deps|] == deps && order[..|order|] == order;
  }

  lemma QueuedOf(l: Lists, n: Name)
    requires l.tasks != []
    ensures Of(l.tasks, n) == (if l.tasks[0].name == n then [l.tasks[0]] else []) + Of(l.tasks[1..], n)
    ensures forall x :: x in Names(l.run + [l.tasks[0]]) <==> x in Names(l.run) || x == l.tasks[0].name
  {
    hide Names;
    NamesOfParts(l.run, [l.tasks[0]]);
    OneName(l.tasks[0]);
  }

  lemma OneName(t: Task)
    ensures forall x :: x in Names([t]) <==> x == t.name
  {
  }

  /** The number of passes that turn the commands of a name before one is queued. */
  function Turns(g: Graph, steps: seq<Lists>, n: Name): nat {
    if |steps| <= 1 then 0 else
      var l := steps[|steps| - 2];
      Turns(g, steps[..|steps| - 1], n)
      + if l.tasks != [] && n !in Names(l.run) && Pulls(g, l.tasks[0], n) then 1 else 0
  }

  /** `t` is queued, and no other of its name is. */
  ghost predicate Runs(run: seq<Task>, t: Task) {
    t in run && forall u :: u in run && u.name == t.name ==> u == t
  }

  lemma JustQueued(run: seq<Task>, t: Task)
    requires t.name !in Names(run)
    ensures Runs(run + [t], t) && t.name in Names(run + [t])
  {
    NamesOfParts(run, [t]);
  }

  lemma StaysQueued(g: Graph, l: Lists, t: Task)
    requires l.tasks != [] && Runs(l.run, t)
    ensures var p := PassOf(g, l); Runs(p.run, t) && t.name in Names(p.run)
  {
  }

  lemma {:induction false} TurnedIsDistinct(ts: seq<Task>, m: nat)
    requires ts != [] && Distinct(ts)
    ensures Distinct(Turned(ts, m))
  {
    var i := FirstAfter(m, |ts|);
    var t := Turned(ts, m);
    forall a, b | 0 <= a < b < |t| ensures t[a] != t[b] {
      var x, y := if a < |ts| - i then i + a else a - (|ts| - i), if b < |ts| - i then i + b else b - (|ts| - i);
      assert t[a] == ts[x] && t[b] == ts[y] && x != y;
    }
  }

  /** Over any run: which of the commands the user gave under one name is queued. */
  lemma {:induction false} WhichRuns(g: Graph, given: seq<Task>, steps: seq<Lists>, n: Name)
    requires IsRun(g, given, steps) && n in Names(given) && Distinct(Of(given, n))
    ensures var l, o, m := steps[|steps| - 1], Of(given, n), Turns(g, steps, n);
            if n in Names(l.run) then Runs(l.run, o[FirstAfter(m, |o|)]) else Of(l.tasks, n) == Turned(o, m)
  {
    hide Names, PassOf, Turn, Turned, FirstAfter, Distinct, Of, MayRun, Pulls, Runs;
    var o := Of(given, n);
    if |steps| == 1 {
      NoNames();
      TurnedNever(o);
    } else {
      var k := |steps| - 1;
      WhichRuns(g, given, steps[..k], n);
      var l, m := steps[k - 1], Turns(g, steps[..k], n);
      if n in Names(l.run) {
        StaysQueued(g, l, o[FirstAfter(m, |o|)]);
      } else {
        TurnedIsDistinct(o, m);
        PassTurns(g, l, n);
        TurnedAgain(o, m);
        if !Pulls(g, l.tasks[0], n) && l.tasks[0].name == n { JustQueued(l.run, Turned(o, m)[0]); }
      }
    }
  }

  lemma BeforeFirst(a: seq<Task>, b: seq<Task>, n: Name)
    requires a != []
    ensures a == [a[0]] + a[1..]
    ensures Before(a + b, n) == if a[0].name == n then [] else [a[0]] + Before(a[1..] + b, n)
    ensures Before(a, n) == if a[0].name == n then [] else [a[0]] + Before(a[1..], n)
    ensures [a[0]] + (a[1..] + Before(b, n)) == a + Before(b, n)
  {
    assert (a + b)[1..] == a[1..] + b && (a + b)[0] == a[0];
    hide Before;
    assert a == [a[0]] + a[1..];
    assert [a[0]] + (a[1..] + Before(b, n)) == ([a[0]] + a[1..]) + Before(b, n);
  }

  lemma {:induction false} BeforeParts(a: seq<Task>, b: seq<Task>, n: Name)
    ensures Before(a + b, n) == if n in Names(a) then Before(a, n) else a + Before(b, n)
  {
    hide Names;
    if a == [] {
      NoNames();
      assert a + b == b;
    } else {
      NamesOfParts([a[0]], a[1..]);
      OneName(a[0]);
      BeforeParts(a[1..], b, n);
      BeforeFirst(a, b, n);
    }
  }

  /** Before the first of a name there is one command more after it was put to the front. */
  lemma BeforeToFront(ts: seq<Task>, i: nat, n: Name)
    requires i < |ts|
    ensures ts[i].name == n ==> Before(ToFront(ts, i), n) == []
    ensures ts[i].name != n ==>
              forall x :: x in Names(Before(ToFront(ts, i), n)) <==> x in Names(Before(ts, n)) || x == ts[i].name
  {
    hide Names;
    var a, x, b := ts[..i], ts[i], ts[i + 1..];
    NoNames();
    OneName(x);
    if x.name != n {
      assert ts == a + ([x] + b) && ToFront(ts, i) == [x] + (a + b);
      BeforeParts(a, [x] + b, n);
      BeforeParts([x], b, n);
      BeforeParts([x], a + b, n);
      BeforeParts(a, b, n);
      NamesOfParts(a, [x] + Before(b, n));
      NamesOfParts([x], Before(b, n));
      NamesOfParts([x], Before(a + b, n));
      NamesOfParts(a, Before(b, n));
    }
  }

  lemma BeforeNew(t: Task, ts: seq<Task>, n: Name)
    requires t.name != n
    ensures forall x :: x in Names(Before([t] + ts, n)) <==> x in Names(Before(ts, n)) || x == t.name
  {
    hide Names;
    OneName(t);
    NamesOfParts([t], Before(ts, n));
  }

  lemma {:induction false} DepsBefore(was: seq<Task>, done: set<Name>, deps: seq<Name>, k: nat, n: Name)
    requires k <= |deps| && n in Names(was) && n !in done
    ensures var b, c := Names(Before(was, n)), Names(Before(DepsPulled(was, done, deps, k), n));
            && (forall x :: x in c ==> x in deps[..k] || (n !in deps[..k] && x in b))
            && (n !in deps[..k] ==> b <= c)
  {
    NoNames();
    hide Names, Lookup, ToFront, Place, Before;
    if k > 0 {
      DepsBefore(was, done, deps, k - 1, n);
      var ts, dep := DepsPulled(was, done, deps, k - 1), deps[k - 1];
      assert deps[..k] == deps[..k - 1] + [dep];
      if dep !in done {
        if dep in Names(was) {
          BeforeToFront(ts, Place(ts, Lookup(was, dep)), n);
        } else {
          BeforeNew(Default(dep, k - 1), ts, n);
        }
      }
    }
  }

  lemma {:induction false} OrderBefore(was: seq<Task>, done: set<Name>, tasks: seq<Task>, order: seq<Name>, k: nat,
      n: Name)
    requires k <= |order| && (forall t :: t in was ==> t in tasks) && n in Names(was) && n !in done
    ensures var b, c := Names(Before(tasks, n)), Names(Before(OrderPulled(was, done, tasks, order, k), n));
            && (forall x :: x in c ==> (x in order[..k] && x in Names(was)) || (n !in order[..k] && x in b))
            && (n !in order[..k] ==> b <= c)
  {
    NoNames();
    hide Names, Lookup, ToFront, Place, Before;
    if k > 0 {
      OrderBefore(was, done, tasks, order, k - 1, n);
      var ts, dep := OrderPulled(was, done, tasks, order, k - 1), order[k - 1];
      if dep in Names(was) && dep !in done { BeforeToFront(ts, Place(ts, Lookup(was, dep)), n); }
    }
  }

  /** The front command brings it to the front, if it is not queued. */
  predicate Brings(g: Graph, was: seq<Task>, x: Name)
    requires was != []
  {
    x in g.deps(was[0].name) || (x in g.order(was[0].name) && x in Names(was))
  }

  /** How a pass changes what is before the first command of a name. */
  lemma PassBefore(g: Graph, l: Lists, n: Name)
    requires l.tasks != [] && n in Names(l.tasks) && n !in Names(l.run)
    requires !(l.tasks[0].name == n && MayRun(g, l.tasks, Names(l.run)))
    ensures var p, pulled := PassOf(g, l), Pulls(g, l.tasks[0], n);
            var b, c := Names(Before(l.tasks, n)), Names(Before(p.tasks, n));
            && (forall x :: x in c ==> Brings(g, l.tasks, x) || (!pulled && x in b))
            && (!pulled ==> forall x :: x in b ==> x in c || x in Names(p.run))
  {
    hide Names;
    var front, done := l.tasks[0], Names(l.run);
    if MayRun(g, l.tasks, done) {
      assert l.tasks == [front] + l.tasks[1..];
      NamesOfParts([front], Before(l.tasks[1..], n));
      OneName(front);
      NamesOfParts(l.run, [front]);
    } else {
      hide Before, MayRun;
      var deps, order := g.deps(front.name), g.order(front.name);
      DepsBefore(l.tasks, done, deps, |deps|, n);
      OrderBefore(l.tasks, done, DepsPulled(l.tasks, done, deps, |deps|), order, |order|, n);
      assert deps[..|deps|] == deps && order[..|order|] == order;
    }
  }

  lemma FrontIsBefore(ts: seq<Task>, n: Name)
    requires ts != []
    ensures ts[0].name == n || ts[0].name in Names(Before(ts, n))
  {
    if ts[0].name != n {
      assert Before(ts, n)[0] == ts[0];
    }
  }

  /** What holds before every pass of the loop. */
  lemma {:induction false} RunProgresses(g: Graph, given: seq<Task>, rank: Name -> nat, all: set<Name>,
      steps: seq<Lists>)
    requires IsRun(g, given, steps) && Acyclic(g, rank, all) && Closed(g, all) && Names(given) <= all
    ensures var l := steps[|steps| - 1]; Progress(g, given, all, l.tasks, l.run)
  {
    hide Progress, Names, Acyclic, Closed, PassOf, Passed;
    if |steps| == 1 {
      Start(g, given, all);
    } else {
      var k := |steps| - 1;
      RunProgresses(g, given, rank, all, steps[..k]);
      var l := steps[k - 1];
      PassOfIs(g, l);
      PassProgresses(g, given, rank, all, l.tasks, l.run, steps[k].tasks, steps[k].run);
    }
  }

  /** What a set of commands leads to: dependencies, and order dependencies that the
      user gave. */
  ghost predicate Shut(g: Graph, given: set<Name>, s: set<Name>) {
    forall x, d :: x in s && (d in g.deps(x) || (d in g.order(x) && d in given)) ==> d in s
  }

  /** No command given before the first one of that name leads to it. */
  ghost predicate Unreached(g: Graph, given: seq<Task>, n: Name) {
    exists s :: Shut(g, Names(given), s) && Names(Before(given, n)) <= s && n !in s
  }

  /** What is before the first of that name leads to others only, and so does all
      that was not given. */
  ghost predicate Apart(rank: Name -> nat, given: set<Name>, s: set<Name>, n: Name, tasks: seq<Task>) {
    && (forall x :: x in Names(Before(tasks, n)) ==> x in s || rank(x) < rank(n))
    && (forall x :: x in Names(tasks) ==> x in given || x in s || rank(x) < rank(n))
  }

  lemma StaysApart(g: Graph, rank: Name -> nat, all: set<Name>, given: set<Name>, s: set<Name>, n: Name, l: Lists)
    requires Acyclic(g, rank, all) && Names(l.tasks) <= all && Shut(g, given, s) && n !in s && n in given
    requires l.tasks != [] && n in Names(l.tasks) && n !in Names(l.run) && Apart(rank, given, s, n, l.tasks)
    ensures !Pulls(g, l.tasks[0], n)
    ensures n in Names(PassOf(g, l).run) || Apart(rank, given, s, n, PassOf(g, l).tasks)
  {
    hide Names, Before, MayRun;
    var f, p := l.tasks[0].name, PassOf(g, l);
    FrontIsBefore(l.tasks, n);
    FrontInAll(l.tasks, all);
    assert Pulls(g, l.tasks[0], n) ==> rank(n) < rank(f);
    assert Pulls(g, l.tasks[0], n) && f in s ==> n in s;
    if f == n && MayRun(g, l.tasks, Names(l.run)) {
      OneName(l.tasks[0]);
      NamesOfParts(l.run, [l.tasks[0]]);
    } else {
      PassBefore(g, l, n);
      PassNames(g, l);
    }
  }

  /** A pass lets nothing new in but dependencies of its front command. */
  lemma PassNames(g: Graph, l: Lists)
    requires l.tasks != []
    ensures forall x :: x in Names(PassOf(g, l).tasks) ==> x in Names(l.tasks) || x in g.deps(l.tasks[0].name)
  {
    PassOfIs(g, l);
    var p := PassOf(g, l);
    forall x | x in Names(p.tasks) ensures x in Names(l.tasks) || x in g.deps(l.tasks[0].name) {
      var t :| t in p.tasks && t.name == x;
      if t !in l.tasks { assert !MayRun(g, l.tasks, Names(l.run)); }
    }
  }

  /** A name nothing given before leads to is never turned. */
  lemma {:induction false} UnreachedNeverTurns(g: Graph, given: seq<Task>, rank: Name -> nat, all: set<Name>,
      s: set<Name>, steps: seq<Lists>, n: Name)
    requires IsRun(g, given, steps) && Acyclic(g, rank, all) && Closed(g, all) && Names(given) <= all
        && n in Names(given)
    requires Shut(g, Names(given), s) && Names(Before(given, n)) <= s && n !in s
    ensures Turns(g, steps, n) == 0
    ensures var l := steps[|steps| - 1]; n in Names(l.run) || Apart(rank, Names(given), s, n, l.tasks)
  {
    hide Names, Before, PassOf, Acyclic, Closed, Shut, Apart, Pulls, Progress;
    if |steps| == 1 {
      StartsApart(rank, given, s, n);
    } else {
      var k := |steps| - 1;
      var l := steps[k - 1];
      UnreachedNeverTurns(g, given, rank, all, s, steps[..k], n);
      RunProgresses(g, given, rank, all, steps[..k]);
      WaitsOrRuns(g, given, all, l, n);
      if n in Names(l.run) { StaysIn(g, l, n); } else { StaysApart(g, rank, all, Names(given), s, n, l); }
    }
  }

  lemma StartsApart(rank: Name -> nat, given: seq<Task>, s: set<Name>, n: Name)
    requires Names(Before(given, n)) <= s
    ensures Apart(rank, Names(given), s, n, given)
  {
  }

  lemma WaitsOrRuns(g: Graph, given: seq<Task>, all: set<Name>, l: Lists, n: Name)
    requires Progress(g, given, all, l.tasks, l.run) && n in Names(given)
    ensures n in Names(l.tasks) || n in Names(l.run)
    ensures Names(l.tasks) <= all && Ordered(g, Names(given), l.run)
  {
    assert n in Names(l.tasks) + Names(l.run);
  }

  lemma StaysIn(g: Graph, l: Lists, n: Name)
    requires l.tasks != [] && n in Names(l.run)
    ensures n in Names(PassOf(g, l).run)
  {
    NamesOfParts(l.run, [l.tasks[0]]);
  }

  /** As long as a name is not turned, what was given before it is still before it
      or queued. */
  ghost predicate StillBefore(given: seq<Task>, n: Name, l: Lists) {
    forall x :: x in Names(Before(given, n)) ==> x in Names(Before(l.tasks, n)) || x in Names(l.run)
  }

  /** A name is turned unless nothing given before it leads to it. */
  lemma {:induction false} NeverTurnedIsUnreached(g: Graph, given: seq<Task>, rank: Name -> nat, all: set<Name>,
      steps: seq<Lists>, n: Name)
    requires IsRun(g, given, steps) && Acyclic(g, rank, all) && Closed(g, all) && Names(given) <= all
        && n in Names(given)
    requires Turns(g, steps, n) == 0
    ensures var l := steps[|steps| - 1]; if n in Names(l.run) then Unreached(g, given, n) else StillBefore(given, n, l)
  {
    hide Names, Before, PassOf, Acyclic, Closed, Unreached, StillBefore, Pulls, Progress, Ordered;
    if |steps| == 1 {
      StartsBefore(given, n);
    } else {
      var k := |steps| - 1;
      var l := steps[k - 1];
      NeverTurnedIsUnreached(g, given, rank, all, steps[..k], n);
      RunProgresses(g, given, rank, all, steps[..k]);
      WaitsOrRuns(g, given, all, l, n);
      if n in Names(l.run) { StaysIn(g, l, n); } else { NotTurned(g, given, l, n); }
    }
  }

  lemma StartsBefore(given: seq<Task>, n: Name)
    ensures StillBefore(given, n, Lists(given, [])) && n !in Names([])
  {
  }

  lemma NotTurned(g: Graph, given: seq<Task>, l: Lists, n: Name)
    requires l.tasks != [] && n in Names(l.tasks) && n !in Names(l.run)
    requires !Pulls(g, l.tasks[0], n) && StillBefore(given, n, l) && Ordered(g, Names(given), l.run)
    ensures var p := PassOf(g, l); if n in Names(p.run) then Unreached(g, given, n) else StillBefore(given, n, p)
  {
    hide Names, Ordered, MayRun, Pulls, Shut;
    if l.tasks[0].name == n && MayRun(g, l.tasks, Names(l.run)) {
      OneName(l.tasks[0]);
      NamesOfParts(l.run, [l.tasks[0]]);
      NoNames();
      QueueIsShut(g, Names(given), l.run);
      assert Before(l.tasks, n) == [];
    } else {
      hide Before, Unreached;
      PassBefore(g, l, n);
      StaysOut(g, l, n);
      forall x | x in Names(l.run) ensures x in Names(PassOf(g, l).run) { StaysIn(g, l, x); }
    }
  }

  lemma StaysOut(g: Graph, l: Lists, n: Name)
    requires l.tasks != [] && n !in Names(l.run) && !(l.tasks[0].name == n && MayRun(g, l.tasks, Names(l.run)))
    ensures n !in Names(PassOf(g, l).run)
  {
    hide MayRun;
    NamesOfParts(l.run, [l.tasks[0]]);
  }

  /** The queue leads nowhere else. */
  lemma QueueIsShut(g: Graph, given: set<Name>, run: seq<Task>)
    requires Ordered(g, given, run)
    ensures Shut(g, given, Names(run))
  {
    forall x, d | x in Names(run) && (d in g.deps(x) || (d in g.order(x) && d in given)) ensures d in Names(run) {
      var i :| 0 <= i < |run| && run[i].name == x;
      assert d in Names(run[..i]);
    }
  }

  /** What turned a name so far: different commands, each above all that is before
      the name now. */
  ghost predicate TurnedBy(g: Graph, rank: Name -> nat, n: Name, tasks: seq<Task>, who: set<Name>) {
    forall b :: b in who ==>
      && (n in g.deps(b) || n in g.order(b)) && rank(n) < rank(b)
      && forall x :: x in Names(Before(tasks, n)) ==> rank(x) < rank(b)
  }

  lemma OnceMore(g: Graph, rank: Name -> nat, all: set<Name>, n: Name, l: Lists, who: set<Name>)
    requires Acyclic(g, rank, all) && Names(l.tasks) <= all
    requires l.tasks != [] && n in Names(l.tasks) && n !in Names(l.run) && TurnedBy(g, rank, n, l.tasks, who)
    ensures var p, f := PassOf(g, l), l.tasks[0].name;
            n in Names(p.run) || TurnedBy(g, rank, n, p.tasks, if Pulls(g, l.tasks[0], n) then who + {f} else who)
    ensures Pulls(g, l.tasks[0], n) ==>
          && l.tasks[0].name !in who && n !in Names(PassOf(g, l).run)
          && l.tasks[0].name in all
  {
    hide Names, Before, MayRun;
    var f, p := l.tasks[0].name, PassOf(g, l);
    FrontIsBefore(l.tasks, n);
    FrontInAll(l.tasks, all);
    if f == n && MayRun(g, l.tasks, Names(l.run)) {
      OneName(l.tasks[0]);
      NamesOfParts(l.run, [l.tasks[0]]);
    } else {
      PassBefore(g, l, n);
      StaysOut(g, l, n);
    }
  }

  /** Each command turns a name once at most. */
  lemma {:induction false} TurnersDiffer(g: Graph, given: seq<Task>, rank: Name -> nat, all: set<Name>,
      steps: seq<Lists>, n: Name)
    returns (who: set<Name>)
    requires IsRun(g, given, steps) && Acyclic(g, rank, all) && Closed(g, all) && Names(given) <= all
        && n in Names(given)
    ensures |who| == Turns(g, steps, n) && who <= all
    ensures forall b :: b in who ==> n in g.deps(b) || n in g.order(b)
    ensures var l := steps[|steps| - 1]; n in Names(l.run) || TurnedBy(g, rank, n, l.tasks, who)
  {
    hide Names, Before, PassOf, Acyclic, Closed, Progress;
    if |steps| == 1 {
      who := {};
    } else {
      var k := |steps| - 1;
      var l := steps[k - 1];
      who := TurnersDiffer(g, given, rank, all, steps[..k], n);
      RunProgresses(g, given, rank, all, steps[..k]);
      WaitsOrRuns(g, given, all, l, n);
      if n in Names(l.run) {
        StaysIn(g, l, n);
      } else {
        OnceMore(g, rank, all, n, l, who);
        if Pulls(g, l.tasks[0], n) { who := who + {l.tasks[0].name}; }
      }
    }
  }

  /** A finished run of the loop. */
  ghost predicate Finished(g: Graph, given: seq<Task>, rank: Name -> nat, all: set<Name>, steps: seq<Lists>,
      run: seq<Task>) {
    && Acyclic(g, rank, all) && Closed(g, all) && Names(given) <= all
    && IsRun(g, given, steps) && steps[|steps| - 1] == Lists([], run)
  }

  /** Of the commands given under one name one is queued, the first of them exactly if
      their number divides the number of turns; there are none exactly if no command
      given before the first one leads to it. */
  lemma RepeatedCommand(g: Graph, given: seq<Task>, rank: Name -> nat, all: set<Name>, steps: seq<Lists>,
      run: seq<Task>, n: Name)
    requires Finished(g, given, rank, all, steps, run) && n in Names(given) && Distinct(given)
    ensures var o, m := Of(given, n), Turns(g, steps, n);
            && Runs(run, o[FirstAfter(m, |o|)])
            && (o[0] in run <==> m % |o| == 0)
            && (m == 0 <==> Unreached(g, given, n))
  {
    hide Names, Before, PassOf, Acyclic, Closed, Progress, Ordered;
    NoNames();
    RunProgresses(g, given, rank, all, steps);
    WaitsOrRuns(g, given, all, Lists([], run), n);
    OfIsDistinct(given, n);
    WhichRuns(g, given, steps, n);
    if Turns(g, steps, n) == 0 { NeverTurnedIsUnreached(g, given, rank, all, steps, n); }
    if Unreached(g, given, n) {
      var s :| Shut(g, Names(given), s) && Names(Before(given, n)) <= s && n !in s;
      UnreachedNeverTurns(g, given, rank, all, s, steps, n);
    }
  }

  lemma {:induction false} OfIsDistinct(ts: seq<Task>, n: Name)
    requires Distinct(ts)
    ensures Distinct(Of(ts, n))
  {
    hide Names;
    if ts != [] {
      assert ts[0] !in ts[1..];
      OfIsDistinct(ts[1..], n);
    }
  }

  /** With more repetitions than commands that name it, and so whenever there is only
      one such command, the first one runs exactly if nothing given before leads to it. */
  lemma FirstRunsIffUnreached(g: Graph, given: seq<Task>, rank: Name -> nat, all: set<Name>, steps: seq<Lists>,
      run: seq<Task>, n: Name, users: set<Name>)
    requires Finished(g, given, rank, all, steps, run) && n in Names(given) && Distinct(given)
    requires forall b :: b in all && (n in g.deps(b) || n in g.order(b)) ==> b in users
    requires |users| < |Of(given, n)|
    ensures Of(given, n)[0] in run <==> Unreached(g, given, n)
    ensures |users| == 1 && !Unreached(g, given, n) ==> Of(given, n)[|Of(given, n)| - 1] in run
  {
    hide Names, PassOf, Acyclic, Closed, IsRun, Of, Unreached, Turns, TurnedBy, Distinct;
    RepeatedCommand(g, given, rank, all, steps, run, n);
    var who := TurnersDiffer(g, given, rank, all, steps, n);
    Cardinality(who, users);
  }

  /** A command and the one it depends on, given twice: the last one runs. */
  lemma LastOfTwoRuns(g: Graph, f: Task, b: Task, c: Task) returns (steps: seq<Lists>)
    requires f.name != b.name == c.name && b != c
    requires g.deps(f.name) == [b.name] && g.deps(b.name) == g.order(f.name) == g.order(b.name) == []
    ensures IsRun(g, [f, b, c], steps) && steps[|steps| - 1] == Lists([], [c, f])
  {
    hide PassOf, IsRun;
    var given := [f, b, c];
    assert [f, b] + [c] == given && [c] + [f, b] == [c, f, b];
    PullsOne(g, [f, b], c);
    steps := OneStep(g, given, Starting(g, given), Lists([c, f, b], []));
    steps := Queues(g, given, steps);
    steps := Queues(g, given, steps);
    steps := Drops(g, given, steps, c);
  }

  /** The last command is pulled to the front. */
  lemma PullsLast(pre: seq<Task>, x: Task)
    requires x !in pre
    ensures var was := pre + [x];
          && x.name in Names(was) && Lookup(was, x.name) == x && x in was
          && Pulled(was, was, x.name) == [x] + pre
  {
    var was := pre + [x];
    assert was[|pre|] == x && was[..|pre|] == pre;
    assert x in was && x.name in Names(was);
    assert Place(was, x) == |pre|;
  }

  lemma PullsOne(g: Graph, pre: seq<Task>, x: Task)
    requires pre != [] && x !in pre && g.deps(pre[0].name) == [x.name] && g.order(pre[0].name) == []
    ensures PassOf(g, Lists(pre + [x], [])) == Lists([x] + pre, [])
  {
    PullsLast(pre, x);
    NoNames();
    hide Names, Pulled, Lookup;
    var was := pre + [x];
    assert DepsPulled(was, {}, [x.name], 0) == was;
    assert [x.name][0] !in Names([]);
  }

  lemma FirstMissing(g: Graph, ts: seq<Task>, done: set<Name>, n: Name)
    requires ts != [] && g.deps(ts[0].name) != [] && g.deps(ts[0].name)[0] == n && n !in done
    ensures !MayRun(g, ts, done)
  {
    assert n in g.deps(ts[0].name);
  }

  lemma PullsTwo(g: Graph, pre: seq<Task>, x: Task, p: Name)
    requires pre != [] && x !in pre && p !in Names(pre + [x])
    requires g.deps(pre[0].name) == [x.name, p] && g.order(pre[0].name) == []
    ensures PassOf(g, Lists(pre + [x], [])) == Lists([Default(p, 1), x] + pre, [])
  {
    PullsLast(pre, x);
    NoNames();
    var was := pre + [x];
    FirstMissing(g, was, Names([]), x.name);
    hide Names, Pulled, Lookup, MayRun;
    assert DepsPulled(was, {}, [x.name, p], 0) == was;
    assert DepsPulled(was, {}, [x.name, p], 1) == [x] + pre;
    assert DepsPulled(was, {}, [x.name, p], 2) == [Default(p, 1), x] + pre;
  }

  function Starting(g: Graph, given: seq<Task>): (steps: seq<Lists>)
    ensures |steps| == 1 && steps[0] == Lists(given, []) && IsRun(g, given, steps)
  {
    [Lists(given, [])]
  }

  /** The front command is new and all it depends on is queued. */
  lemma Queues(g: Graph, given: seq<Task>, steps: seq<Lists>) returns (more: seq<Lists>)
    requires IsRun(g, given, steps)
    requires var l := steps[|steps| - 1];
             && l.tasks != [] && g.order(l.tasks[0].name) == []
                 && (forall u :: u in l.run ==> u.name != l.tasks[0].name)
             && forall d :: d in g.deps(l.tasks[0].name) ==> exists u :: u in l.run && u.name == d
    ensures var l := steps[|steps| - 1];
            |more| > 0 && IsRun(g, given, more) && more[|more| - 1] == Lists(l.tasks[1..], l.run + [l.tasks[0]])
  {
    var l := steps[|steps| - 1];
    more := OneStep(g, given, steps, Lists(l.tasks[1..], l.run + [l.tasks[0]]));
  }

  /** The front command has run under its name, as `u`. */
  lemma Drops(g: Graph, given: seq<Task>, steps: seq<Lists>, u: Task) returns (more: seq<Lists>)
    requires IsRun(g, given, steps)
    requires var l := steps[|steps| - 1];
             l.tasks != [] && g.order(l.tasks[0].name) == g.deps(l.tasks[0].name) == [] && u in l.run
                 && u.name == l.tasks[0].name
    ensures var l := steps[|steps| - 1];
            |more| > 0 && IsRun(g, given, more) && more[|more| - 1] == Lists(l.tasks[1..], l.run)
  {
    var l := steps[|steps| - 1];
    more := OneStep(g, given, steps, Lists(l.tasks[1..], l.run));
  }

  /** `idf.py flash build build`, where flash depends on build: the last build runs. */
  lemma LastBuildRuns(g: Graph) returns (steps: seq<Lists>)
    requires g.deps("flash") == ["build"] && g.deps("build") == g.order("flash") == g.order("build") == []
    ensures IsRun(g, [Given("flash", 0), Given("build", 1), Given("build", 2)], steps)
    ensures steps[|steps| - 1] == Lists([], [Given("build", 2), Given("flash", 0)])
  {
    assert "flash"[0] != "build"[0];
    steps := LastOfTwoRuns(g, Given("flash", 0), Given("build", 1), Given("build", 2));
  }

  /** If the command needs another one, too, that depends on the repeated one, the
      repeated ones are turned twice, and the first one runs after all. */
  lemma FirstOfTwoRuns(g: Graph, f: Task, b: Task, c: Task, p: Name) returns (steps: seq<Lists>)
    requires f.name != b.name == c.name && b != c && p != f.name && p != b.name
    requires g.deps(f.name) == [b.name, p] && g.deps(p) == [b.name] && g.deps(b.name) == []
    requires g.order(f.name) == g.order(b.name) == g.order(p) == []
    ensures IsRun(g, [f, b, c], steps) && steps[|steps| - 1] == Lists([], [b, Default(p, 1), f])
  {
    hide PassOf, IsRun;
    steps := TwoPulls(g, f, b, c, p);
    var given := [f, b, c];
    steps := Queues(g, given, steps);
    steps := Queues(g, given, steps);
    steps := Drops(g, given, steps, b);
    steps := Queues(g, given, steps);
  }

  lemma TwoPulls(g: Graph, f: Task, b: Task, c: Task, p: Name) returns (steps: seq<Lists>)
    requires f.name != b.name == c.name && b != c && p != f.name && p != b.name
    requires g.deps(f.name) == [b.name, p] && g.deps(p) == [b.name] && g.order(f.name) == g.order(p) == []
    ensures |steps| > 0 && IsRun(g, [f, b, c], steps) && steps[|steps| - 1] == Lists([b, Default(p, 1), c, f], [])
  {
    hide PassOf, IsRun;
    var given, d := [f, b, c], Default(p, 1);
    assert [f, b] + [c] == given && [d, c] + [f, b] == [d, c, f, b];
    assert [d, c, f] + [b] == [d, c, f, b] && [b] + [d, c, f] == [b, d, c, f];
    PullsTwo(g, [f, b], c, p);
    PullsOne(g, [d, c, f], b);
    steps := OneStep(g, given, Starting(g, given), Lists([d, c, f, b], []));
    steps := OneStep(g, given, steps, Lists([b, d, c, f], []));
  }

  lemma OneStep(g: Graph, given: seq<Task>, steps: seq<Lists>, l: Lists) returns (more: seq<Lists>)
    requires IsRun(g, given, steps) && steps[|steps| - 1].tasks != []
    requires l == PassOf(g, steps[|steps| - 1])
    ensures more == steps + [l] && IsRun(g, given, more)
  {
    more := steps + [l];
    assert more[..|steps|] == steps;
  }
}
