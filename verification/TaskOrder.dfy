/** How idf.py orders its commands (the loop of execute_tasks): dependencies are
    queued first, order-only dependencies too if they are on the command line. */
module TaskOrder {
  type Name = string

  /** A command to run: one the user gave, with his options, or one invoked as a
      dependency with the default options.  Its place on the command line, or in
      the list of dependencies, tells it from others of its name. */
  datatype Task = Given(name: Name, place: nat) | Default(name: Name, place: nat)

  /** What each command depends on, and what it must follow if both are run. */
  datatype Graph = Graph(deps: Name -> seq<Name>, order: Name -> seq<Name>)

  function Names(ts: seq<Task>): set<Name> {
    set t | t in ts :: t.name
  }

  lemma NamesOfParts(a: seq<Task>, b: seq<Task>)
    ensures Names(a + b) == Names(a) + Names(b)
  {
  }

  /** Every dependency leads to a smaller rank: there is no cycle. */
  ghost predicate Acyclic(g: Graph, rank: Name -> nat, all: set<Name>) {
    forall n, d :: n in all && (d in g.deps(n) || d in g.order(n)) ==> rank(d) < rank(n)
  }

  /** A set of commands that holds the dependencies of its members. */
  ghost predicate Closed(g: Graph, all: set<Name>) {
    forall n, d :: n in all && d in g.deps(n) ==> d in all
  }

  /** The commands that must run for the given ones: the least closed set around them. */
  ghost predicate Needed(g: Graph, given: set<Name>, all: set<Name>) {
    given <= all && Closed(g, all) && forall s :: given <= s && Closed(g, s) ==> all <= s
  }

  /** What a name stands for among the waiting commands: the last one of that name. */
  function Lookup(ts: seq<Task>, n: Name): (t: Task)
    requires n in Names(ts)
    ensures t in ts && t.name == n
  {
    var last := ts[|ts| - 1];
    if last.name == n then last
    else
      NamesOfParts(ts[..|ts| - 1], [last]);
      assert ts == ts[..|ts| - 1] + [last];
      Lookup(ts[..|ts| - 1], n)
  }

  /** The first place of `t`. */
  function Place(ts: seq<Task>, t: Task): (i: nat)
    requires t in ts
    ensures i < |ts| && ts[i] == t
    ensures forall j :: 0 <= j < i ==> ts[j] != t
  {
    if ts[0] == t then 0 else 1 + Place(ts[1..], t)
  }

  method IndexOf(ts: seq<Task>, t: Task) returns (i: nat)
    requires t in ts
    ensures i == Place(ts, t)
  {
    i := 0;
    while ts[i] != t
      invariant i < |ts| && t in ts[i..] && t !in ts[..i]
      decreases |ts| - i
    {
      i := i + 1;
    }
  }

  /** The command at place `i` taken out and put to the front. */
  function ToFront(ts: seq<Task>, i: nat): (r: seq<Task>)
    requires i < |ts|
    ensures |r| == |ts| && r[0] == ts[i] && multiset(r) == multiset(ts)
    ensures forall t :: t in r <==> t in ts
  {
    assert ts == ts[..i] + [ts[i]] + ts[i + 1..];
    [ts[i]] + ts[..i] + ts[i + 1..]
  }

  /** All names in `ns` are in `s`. */
  predicate AllIn(ns: seq<Name>, s: set<Name>) {
    forall n :: n in ns ==> n in s
  }

  /** The waiting list `ts` as one pass may have rearranged `was`: nothing is lost,
      and what is new are dependencies of the front task that were nowhere. */
  ghost predicate Rearranged(g: Graph, was: seq<Task>, done: set<Name>, ts: seq<Task>)
    requires |was| > 0
  {
    && (forall t :: t in was ==> t in ts)
    && (forall t :: t in ts && t !in was ==>
          && t.Default? && t.name in g.deps(was[0].name) && t.name !in Names(was)
          && t.name !in done)
    && (|ts| == |was| || exists t :: t in ts && t !in was)
  }

  /** The front task of `ts` is one that `names` lists and that is not queued.  If
      the user gave several of that name it is the last of them. */
  ghost predicate Fronted(was: seq<Task>, ts: seq<Task>, names: seq<Name>, done: set<Name>) {
    && |ts| > 0 && ts[0].name in names && ts[0].name !in done
    && if ts[0].name in Names(was) then ts[0] == Lookup(was, ts[0].name) else ts[0].Default?
  }

  /** No order dependency listed in `order` waits in `ts`. */
  predicate NoneWaits(order: seq<Name>, ts: seq<Task>, done: set<Name>) {
    forall d :: d in order && d in Names(ts) ==> d in done
  }

  /** The front task may be queued: its dependencies are, and none of its order
      dependencies is still waiting. */
  predicate MayRun(g: Graph, ts: seq<Task>, done: set<Name>)
    requires |ts| > 0
  {
    AllIn(g.deps(ts[0].name), done) && NoneWaits(g.order(ts[0].name), ts, done)
  }

  /** The command of that name that waits is put to the front. */
  function Pulled(was: seq<Task>, ts: seq<Task>, dep: Name): (r: seq<Task>)
    requires dep in Names(was) && Lookup(was, dep) in ts
    ensures |r| == |ts| && r[0] == Lookup(was, dep) && forall t :: t in r <==> t in ts
  {
    ToFront(ts, Place(ts, Lookup(was, dep)))
  }

  /** The waiting list after the first `k` dependencies of its front task were pulled. */
  function DepsPulled(was: seq<Task>, done: set<Name>, deps: seq<Name>, k: nat): (ts: seq<Task>)
    requires k <= |deps|
    ensures forall t :: t in was ==> t in ts
  {
    if k == 0 then was else
      var ts, dep := DepsPulled(was, done, deps, k - 1), deps[k - 1];
      if dep in done then ts
      else if dep in Names(was) then Pulled(was, ts, dep)
      else [Default(dep, k - 1)] + ts
  }

  /** `tasks` after the first `k` order dependencies were, too, if they wait. */
  function OrderPulled(was: seq<Task>, done: set<Name>, tasks: seq<Task>, order: seq<Name>, k: nat): (ts: seq<Task>)
    requires k <= |order|
    requires forall t :: t in was ==> t in tasks
    ensures forall t :: t in was ==> t in ts
  {
    if k == 0 then tasks else
      var ts, dep := OrderPulled(was, done, tasks, order, k - 1), order[k - 1];
      if dep in Names(was) && dep !in done then Pulled(was, ts, dep) else ts
  }

  /** The two lists: what waits and what is queued. */
  datatype Lists = Lists(tasks: seq<Task>, run: seq<Task>)

  /** What one pass of the loop makes of them. */
  function PassOf(g: Graph, l: Lists): Lists
    requires l.tasks != []
  {
    var front, done := l.tasks[0], Names(l.run);
    if MayRun(g, l.tasks, done)
    then Lists(l.tasks[1..], if front.name in done then l.run else l.run + [front])
    else
      var deps, order := g.deps(front.name), g.order(front.name);
      Lists(OrderPulled(l.tasks, done, DepsPulled(l.tasks, done, deps, |deps|), order, |order|), l.run)
  }

  /** The lists as they are before each pass. */
  ghost predicate IsRun(g: Graph, given: seq<Task>, steps: seq<Lists>) {
    && |steps| > 0
    && if |steps| == 1 then steps[0] == Lists(given, [])
       else
         var k := |steps| - 1;
         IsRun(g, given, steps[..k]) && steps[k - 1].tasks != [] && steps[k] == PassOf(g, steps[k - 1])
  }

  lemma PulledIs(g: Graph, was: seq<Task>, done: set<Name>, ts: seq<Task>, dep: Name)
    requires |was| > 0 && Rearranged(g, was, done, ts) && dep in Names(was) && Lookup(was, dep) in ts
    ensures Rearranged(g, was, done, Pulled(was, ts, dep))
  {
    hide Names;
    if t :| t in ts && t !in was { assert t in Pulled(was, ts, dep); }
  }

  lemma InvokedIs(g: Graph, was: seq<Task>, done: set<Name>, ts: seq<Task>, t: Task)
    requires |was| > 0 && Rearranged(g, was, done, ts)
    requires t.Default? && t.name in g.deps(was[0].name) && t.name !in Names(was) && t.name !in done
    ensures Rearranged(g, was, done, [t] + ts)
  {
    assert t in [t] + ts;
  }

  lemma {:induction false} DepsPulledIs(g: Graph, was: seq<Task>, done: set<Name>, deps: seq<Name>, k: nat)
    requires |was| > 0 && deps == g.deps(was[0].name) && k <= |deps|
    ensures var ts := DepsPulled(was, done, deps, k);
            && Rearranged(g, was, done, ts)
            && if AllIn(deps[..k], done) then ts == was else Fronted(was, ts, deps, done)
  {
    hide Names, Rearranged, Pulled;
    if k == 0 {
      NothingMoved(g, was, done);
    } else {
      DepsPulledIs(g, was, done, deps, k - 1);
      AllInOneMore(deps, k - 1, done);
      var ts, dep := DepsPulled(was, done, deps, k - 1), deps[k - 1];
      if dep !in done {
        if dep in Names(was) { PulledIs(g, was, done, ts, dep); }
            else { InvokedIs(g, was, done, ts, Default(dep, k - 1)); }
      }
    }
  }

  lemma NothingMoved(g: Graph, was: seq<Task>, done: set<Name>)
    requires |was| > 0
    ensures Rearranged(g, was, done, was)
  {
  }

  lemma AllInOneMore(ns: seq<Name>, k: nat, s: set<Name>)
    requires k < |ns|
    ensures AllIn(ns[..k + 1], s) <==> AllIn(ns[..k], s) && ns[k] in s
  {
    assert ns[..k + 1] == ns[..k] + [ns[k]];
  }

  lemma NoneWaitsOneMore(ns: seq<Name>, k: nat, ts: seq<Task>, done: set<Name>)
    requires k < |ns|
    ensures NoneWaits(ns[..k + 1], ts, done) <==> NoneWaits(ns[..k], ts, done) && (ns[k] in Names(ts) ==> ns[k] in done)
  {
    assert ns[..k + 1] == ns[..k] + [ns[k]];
  }

  lemma {:induction false} OrderPulledIs(g: Graph, was: seq<Task>, done: set<Name>, tasks: seq<Task>,
      order: seq<Name>, k: nat)
    requires |was| > 0 && Rearranged(g, was, done, tasks) && order == g.order(was[0].name) && k <= |order|
    ensures (forall t :: t in was ==> t in tasks)
    ensures var ts := OrderPulled(was, done, tasks, order, k);
            && Rearranged(g, was, done, ts)
            && if NoneWaits(order[..k], was, done) then ts == tasks else Fronted(was, ts, order, done)
  {
    assert forall t :: t in was ==> t in tasks;
    hide Names, Rearranged, Pulled, NoneWaits;
    if k == 0 {
      NoneWaitsNone(was, done);
    } else {
      OrderPulledIs(g, was, done, tasks, order, k - 1);
      NoneWaitsOneMore(order, k - 1, was, done);
      var ts, dep := OrderPulled(was, done, tasks, order, k - 1), order[k - 1];
      if dep in Names(was) && dep !in done { PulledIs(g, was, done, ts, dep); }
    }
  }

  lemma AllInNone(s: set<Name>)
    ensures AllIn([], s)
  {
  }

  lemma NoneWaitsNone(ts: seq<Task>, done: set<Name>)
    ensures NoneWaits([], ts, done)
  {
  }

  /** The first inner loop: dependencies that are not queued go to the front. */
  method MoveDependencies(g: Graph, was: seq<Task>, done: set<Name>) returns (tasks: seq<Task>, processed: bool)
    requires |was| > 0
    ensures tasks == DepsPulled(was, done, g.deps(was[0].name), |g.deps(was[0].name)|)
    ensures Rearranged(g, was, done, tasks)
    ensures processed <==> AllIn(g.deps(was[0].name), done)
    ensures if processed then tasks == was else Fronted(was, tasks, g.deps(was[0].name), done)
  {
    hide Names, Rearranged, Fronted, AllIn, ToFront, Place;
    tasks, processed := was, true;
    var deps := g.deps(was[0].name);
    assert AllIn([], done) by { AllInNone(done); }
    for k := 0 to |deps|
      invariant tasks == DepsPulled(was, done, deps, k)
      invariant processed <==> AllIn(deps[..k], done)
    {
      AllInOneMore(deps, k, done);
      var dep := deps[k];
      if dep !in done {
        if dep in Names(was) {
          var i := IndexOf(tasks, Lookup(was, dep));
          tasks := ToFront(tasks, i);
        } else {
          tasks := [Default(dep, k)] + tasks;
        }
        processed := false;
      }
    }
    assert deps[..|deps|] == deps;
    DepsPulledIs(g, was, done, deps, |deps|);
  }

  /** The second: order dependencies go to the front if they wait in the list. */
  method MoveOrderDependencies(g: Graph, was: seq<Task>, done: set<Name>, tasks0: seq<Task>)
      returns (tasks: seq<Task>, none: bool)
    requires |was| > 0 && Rearranged(g, was, done, tasks0)
    ensures tasks == OrderPulled(was, done, tasks0, g.order(was[0].name), |g.order(was[0].name)|)
    ensures Rearranged(g, was, done, tasks)
    ensures none <==> NoneWaits(g.order(was[0].name), was, done)
    ensures if none then tasks == tasks0 else Fronted(was, tasks, g.order(was[0].name), done)
  {
    var order := g.order(was[0].name);
    OrderPulledIs(g, was, done, tasks0, order, |order|);
    hide Names, Rearranged, Fronted, NoneWaits, ToFront, Place;
    tasks, none := tasks0, true;
    NoneWaitsNone(was, done);
    for k := 0 to |order|
      invariant tasks == OrderPulled(was, done, tasks0, order, k)
      invariant none <==> NoneWaits(order[..k], was, done)
    {
      NoneWaitsOneMore(order, k, was, done);
      var dep := order[k];
      if dep in Names(was) && dep !in done {
        var i := IndexOf(tasks, Lookup(was, dep));
        tasks := ToFront(tasks, i);
        none := false;
      }
    }
    assert order[..|order|] == order;
  }

  lemma PassOfIs(g: Graph, l: Lists)
    requires l.tasks != []
    ensures var p := PassOf(g, l); Passed(g, l.tasks, l.run, p.tasks, p.run)
  {
    hide Rearranged, Fronted, DepsPulled, OrderPulled;
    var front, done := l.tasks[0], Names(l.run);
    var deps, order := g.deps(front.name), g.order(front.name);
    var ts := DepsPulled(l.tasks, done, deps, |deps|);
    DepsPulledIs(g, l.tasks, done, deps, |deps|);
    OrderPulledIs(g, l.tasks, done, ts, order, |order|);
    assert deps[..|deps|] == deps && order[..|order|] == order;
    FrontedByEither(l.tasks, PassOf(g, l).tasks, deps, order, done);
    FrontedByEither(l.tasks, ts, deps, order, done);
  }

  lemma FrontedByEither(was: seq<Task>, ts: seq<Task>, deps: seq<Name>, order: seq<Name>, done: set<Name>)
    ensures Fronted(was, ts, deps, done) || Fronted(was, ts, order, done) ==> Fronted(was, ts, deps + order, done)
  {
  }

  /** One pass of the loop. */
  method Pass(g: Graph, tasks0: seq<Task>, run0: seq<Task>) returns (tasks: seq<Task>, run: seq<Task>)
    requires |tasks0| > 0
    ensures Passed(g, tasks0, run0, tasks, run)
    ensures Lists(tasks, run) == PassOf(g, Lists(tasks0, run0))
  {
    var task, processed, none := tasks0[0], true, true;
    run := run0;
    tasks, processed := MoveDependencies(g, tasks0, Names(run));
    tasks, none := MoveOrderDependencies(g, tasks0, Names(run), tasks);
    if processed && none {
      tasks := tasks[1..];
      if task.name !in Names(run) { run := run + [task]; }
    }
  }

  /** What holds of the waiting list and the queue before every pass. */
  ghost predicate Inv(g: Graph, given: seq<Task>, all: set<Name>, tasks: seq<Task>, run: seq<Task>) {
    && Names(given) <= Names(tasks) + Names(run) <= all
    && (forall t :: t in tasks + run && t.name in Names(given) ==> t in given)
    && Ordered(g, Names(given), run)
  }

  /** A queue without repetitions in which each command comes after everything it
      depends on, and after its order dependencies that the user asked for. */
  ghost predicate Ordered(g: Graph, given: set<Name>, run: seq<Task>) {
    forall i :: 0 <= i < |run| ==>
      && run[i].name !in Names(run[..i])
      && AllIn(g.deps(run[i].name), Names(run[..i]))
      && forall d :: d in g.order(run[i].name) && d in given ==> d in Names(run[..i])
  }

  lemma OrderedGrows(g: Graph, given: set<Name>, run: seq<Task>, t: Task)
    requires Ordered(g, given, run) && t.name !in Names(run) && AllIn(g.deps(t.name), Names(run))
    requires forall d :: d in g.order(t.name) && d in given ==> d in Names(run)
    ensures Ordered(g, given, run + [t])
  {
    hide AllIn, Names;
    var r := run + [t];
    assert r[..|run|] == run;
    forall i | 0 <= i < |run| ensures r[..i] == run[..i] && r[i] == run[i] {}
  }

  lemma QueuedKeepsInv(g: Graph, given: seq<Task>, all: set<Name>, tasks: seq<Task>, run: seq<Task>, run': seq<Task>)
    requires |tasks| > 0 && Inv(g, given, all, tasks, run) && MayRun(g, tasks, Names(run))
    requires run' == if tasks[0].name in Names(run) then run else run + [tasks[0]]
    ensures Inv(g, given, all, tasks[1..], run')
    ensures Names(tasks[1..]) + Names(run') == Names(tasks) + Names(run)
  {
    hide Ordered;
    var t := tasks[0];
    assert tasks == [t] + tasks[1..];
    NamesOfParts([t], tasks[1..]);
    NamesOfParts(run, [t]);
    if run' != run { OrderedGrows(g, Names(given), run, t); }
  }

  lemma MovedKeepsInv(g: Graph, given: seq<Task>, all: set<Name>, tasks: seq<Task>, run: seq<Task>, tasks': seq<Task>)
    requires |tasks| > 0 && Closed(g, all) && Inv(g, given, all, tasks, run) && Rearranged(g, tasks, Names(run), tasks')
    ensures Inv(g, given, all, tasks', run)
    ensures Names(tasks) + Names(run) <= Names(tasks') + Names(run)
    ensures |tasks'| != |tasks| ==> Names(tasks) + Names(run) < Names(tasks') + Names(run)
  {
    hide Ordered;
    forall n | n in Names(tasks) ensures n in Names(tasks') {
      var t :| t in tasks && t.name == n;
      assert t in tasks';
    }
    MovedStayInside(g, all, tasks, run, tasks');
    if |tasks'| != |tasks| {
      var t :| t in tasks' && t !in tasks;
      assert t.name in Names(tasks') && t.name !in Names(tasks) + Names(run);
    }
  }

  lemma MovedStayInside(g: Graph, all: set<Name>, tasks: seq<Task>, run: seq<Task>, tasks': seq<Task>)
    requires |tasks| > 0 && Closed(g, all) && Names(tasks) <= all && Rearranged(g, tasks, Names(run), tasks')
    ensures Names(tasks') <= all
  {
    forall n | n in Names(tasks') ensures n in all {
      var t :| t in tasks' && t.name == n;
      if t in tasks { assert n in Names(tasks); } else { assert tasks[0].name in Names(tasks); }
    }
  }

  /** Nothing waits or is queued that the given commands do not need. */
  ghost predicate OnlyNeeded(g: Graph, given: set<Name>, tasks: seq<Task>, run: seq<Task>) {
    forall s :: given <= s && Closed(g, s) ==> Names(tasks) <= s && Names(run) <= s
  }

  lemma MovedOnlyNeeded(g: Graph, given: set<Name>, tasks: seq<Task>, run: seq<Task>, tasks': seq<Task>)
    requires |tasks| > 0 && OnlyNeeded(g, given, tasks, run) && Rearranged(g, tasks, Names(run), tasks')
    ensures OnlyNeeded(g, given, tasks', run)
  {
    hide Closed, Names, Rearranged;
    forall s | given <= s && Closed(g, s) ensures Names(tasks') <= s {
      MovedStayInside(g, s, tasks, run, tasks');
    }
  }

  /** The queue holds, with each command, all it depends on. */
  lemma OrderedIsClosed(g: Graph, given: set<Name>, run: seq<Task>)
    requires Ordered(g, given, run)
    ensures Closed(g, Names(run))
  {
    forall n, d | n in Names(run) && d in g.deps(n) ensures d in Names(run) {
      var i :| 0 <= i < |run| && run[i].name == n;
      assert d in Names(run[..i]);
    }
  }

  /** Dependencies that are not queued are among those that may be needed. */
  lemma Smaller(all: set<Name>, a: set<Name>, b: set<Name>)
    requires a <= b <= all
    ensures |all - b| <= |all - a| && (a < b ==> |all - b| < |all - a|)
  {
    Cardinality(all - b, all - a);
    if a < b {
      var n :| n in b && n !in a;
      assert n in all - a && n !in all - b;
    }
  }

  lemma {:induction false} Cardinality(a: set<Name>, b: set<Name>)
    requires a <= b
    ensures |a| <= |b| && (a != b ==> |a| < |b|)
    decreases a
  {
    if a == {} {
      if b != {} { var x :| x in b; assert |b| > 0; }
    } else {
      var x :| x in a;
      Cardinality(a - {x}, b - {x});
      if a != b { assert a - {x} != b - {x}; }
    }
  }

  /** What holds before every pass, and how far the loop still is from its end. */
  ghost predicate Progress(g: Graph, given: seq<Task>, all: set<Name>, tasks: seq<Task>, run: seq<Task>) {
    Inv(g, given, all, tasks, run) && OnlyNeeded(g, Names(given), tasks, run)
  }

  ghost function Unseen(all: set<Name>, tasks: seq<Task>, run: seq<Task>): nat {
    |all - (Names(tasks) + Names(run))|
  }

  ghost function FrontRank(rank: Name -> nat, tasks: seq<Task>): nat {
    if tasks == [] then 0 else rank(tasks[0].name)
  }

  /** What Pass does to the two lists. */
  ghost predicate Passed(g: Graph, t0: seq<Task>, r0: seq<Task>, tasks: seq<Task>, run: seq<Task>)
    requires |t0| > 0
  {
    var n := t0[0].name;
    if MayRun(g, t0, Names(r0))
    then tasks == t0[1..] && run == (if n in Names(r0) then r0 else r0 + [t0[0]])
    else run == r0 && Rearranged(g, t0, Names(r0), tasks) && Fronted(t0, tasks, g.deps(n) + g.order(n), Names(r0))
  }

  lemma PassProgresses(g: Graph, given: seq<Task>, rank: Name -> nat, all: set<Name>, t0: seq<Task>, r0: seq<Task>,
      tasks: seq<Task>, run: seq<Task>)
    requires Acyclic(g, rank, all) && Closed(g, all) && |t0| > 0
    requires Progress(g, given, all, t0, r0) && Passed(g, t0, r0, tasks, run)
    ensures Progress(g, given, all, tasks, run)
    ensures Unseen(all, tasks, run) <= Unseen(all, t0, r0)
    ensures Unseen(all, tasks, run) == Unseen(all, t0, r0) ==>
              |tasks| < |t0| || (|tasks| == |t0| && FrontRank(rank, tasks) < FrontRank(rank, t0))
  {
    hide Ordered, Closed, Names, Rearranged, MayRun;
    FrontInAll(t0, all);
    if MayRun(g, t0, Names(r0)) {
      QueuedKeepsInv(g, given, all, t0, r0, run);
    } else {
      MovedKeepsInv(g, given, all, t0, r0, tasks);
      MovedOnlyNeeded(g, Names(given), t0, r0, tasks);
      Smaller(all, Names(t0) + Names(r0), Names(tasks) + Names(run));
    }
  }

  lemma EndMeansOrdered(g: Graph, given: seq<Task>, all: set<Name>, run: seq<Task>)
    requires Progress(g, given, all, [], run)
    ensures Ordered(g, Names(given), run)
    ensures Needed(g, Names(given), Names(run))
    ensures forall t :: t in run && t.name in Names(given) ==> t in given
  {
    hide Ordered, Closed, Names;
    OrderedIsClosed(g, Names(given), run);
    NoNames();
    assert [] + run == run;
  }

  /** The whole loop.  It ends when the commands that may be needed have no cycle,
      and queues exactly what is needed, each command once and after what it
      depends on; what the user gave runs with one of the option sets he gave. */
  method OrderTasks(g: Graph, given: seq<Task>, ghost rank: Name -> nat, ghost all: set<Name>) returns (run: seq<Task>)
    requires Acyclic(g, rank, all) && Closed(g, all) && Names(given) <= all
    ensures exists steps :: IsRun(g, given, steps) && steps[|steps| - 1] == Lists([], run)
    ensures Ordered(g, Names(given), run)
    ensures Needed(g, Names(given), Names(run))
    ensures forall t :: t in run && t.name in Names(given) ==> t in given
  {
    hide Ordered, Closed, Names, Progress, Passed, Acyclic, Needed, PassOf;
    var tasks := given;
    run := [];
    ghost var steps := [Lists(given, [])];
    Start(g, given, all);
    while |tasks| > 0
      invariant Progress(g, given, all, tasks, run)
      invariant IsRun(g, given, steps) && steps[|steps| - 1] == Lists(tasks, run)
      decreases Unseen(all, tasks, run), |tasks|, FrontRank(rank, tasks)
    {
      ghost var t0, r0 := tasks, run;
      tasks, run := Pass(g, tasks, run);
      PassProgresses(g, given, rank, all, t0, r0, tasks, run);
      assert (steps + [Lists(tasks, run)])[..|steps|] == steps;
      steps := steps + [Lists(tasks, run)];
    }
    assert tasks == [];
    EndMeansOrdered(g, given, all, run);
  }

  lemma Start(g: Graph, given: seq<Task>, all: set<Name>)
    requires Names(given) <= all
    ensures Progress(g, given, all, given, [])
  {
    NoNames();
  }

  lemma NoNames()
    ensures Names([]) == {}
  {
  }

  lemma FrontInAll(tasks: seq<Task>, all: set<Name>)
    requires |tasks| > 0 && Names(tasks) <= all
    ensures tasks[0].name in all
  {
    assert tasks[0].name in Names(tasks);
  }
}
