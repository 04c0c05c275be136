/**
 The life of the installed routes: refreshes add what is missing, close removes
 everything. Each critical section is one step; the operating system may refuse
 any add.
 */
module RouteManager {
  import opened RoutePlan

  datatype Route = Route(prefix: Prefix, viaTun: bool)

  /** A command to the operating system and, for an add, whether it succeeded. */
  datatype Op = Add(route: Route, ok: bool) | Del(route: Route)

  // ---------------------------------------------------------------- the specification

  datatype State = State(applied: seq<Route>, closed: bool, finished: bool, log: seq<Op>)

  const START := State([], false, false, [])

  /** Adds a route unless it is installed; a refused add is only logged. */
  function AddOne(s: State, r: Route, accepts: Route -> bool): State {
    if r in s.applied then s
    else s.(applied := if accepts(r) then s.applied + [r] else s.applied, log := s.log + [Add(r, accepts(r))])
  }

  function AddMany(s: State, routes: seq<Route>, accepts: Route -> bool): State {
    if routes == [] then s
    else AddOne(AddMany(s, routes[..|routes| - 1], accepts), routes[|routes| - 1], accepts)
  }

  function Via(ps: seq<Prefix>, viaTun: bool): (r: seq<Route>)
    ensures |r| == |ps| && forall k :: 0 <= k < |ps| ==> r[k] == Route(ps[k], viaTun)
  {
    seq(|ps|, k requires 0 <= k < |ps| => Route(ps[k], viaTun))
  }

  function Reversed<T>(s: seq<T>): seq<T> {
    if s == [] then [] else [s[|s| - 1]] + Reversed(s[..|s| - 1])
  }

  function Deletes(routes: seq<Route>): (r: seq<Op>)
    ensures |r| == |routes| && forall k :: 0 <= k < |routes| ==> r[k] == Del(routes[k])
  {
    seq(|routes|, k requires 0 <= k < |routes| => Del(routes[k]))
  }

  /** One critical section: applying a plan, marking the manager closed, or removing the routes afterwards. */
  datatype Step = Apply(viaTun: seq<Prefix>, viaGW: seq<Prefix>, accepts: Route -> bool) | MarkClosed | Remove

  function Next(s: State, step: Step): State {
    match step
    case Apply(viaTun, viaGW, accepts) =>
      if s.closed then s else AddMany(AddMany(s, Via(viaGW, false), accepts), Via(viaTun, true), accepts)
    case MarkClosed => s.(closed := true)
    case Remove =>
      if !s.closed || s.finished then s
      else State([], true, true, s.log + Deletes(Reversed(s.applied)))
  }

  function Run(s: State, steps: seq<Step>): State {
    if steps == [] then s else Next(Run(s, steps[..|steps| - 1]), steps[|steps| - 1])
  }

  // ---------------------------------------------------------------- invariants over every run

  /** The routes whose add succeeded, in order. */
  function Succeeded(log: seq<Op>): seq<Route> {
    if log == [] then []
    else
      var op := log[|log| - 1];
      Succeeded(log[..|log| - 1]) + (if op.Add? && op.ok then [op.route] else [])
  }

  /**
   The applied list has no duplicates and is exactly the successful adds; after close the log
   ends with one delete per installed route in reverse order.
   */
  ghost predicate Inv(s: State) {
    && NoDuplicates(Succeeded(s.log))
    && (s.finished ==> s.closed)
    && (!s.finished ==> s.applied == Succeeded(s.log) && forall k :: 0 <= k < |s.log| ==> s.log[k].Add?)
    && (s.finished ==>
          && s.applied == []
          && exists n :: 0 <= n <= |s.log| && AddsThenDeletes(s.log, n))
  }

  /** The first n commands are adds and the rest delete what they installed, last first. */
  ghost predicate AddsThenDeletes(log: seq<Op>, n: nat)
    requires n <= |log|
  {
    && (forall k :: 0 <= k < n ==> log[k].Add?)
    && log[n..] == Deletes(Reversed(Succeeded(log[..n])))
  }

  lemma SucceededAppend(log: seq<Op>, op: Op)
    ensures Succeeded(log + [op]) == Succeeded(log) + (if op.Add? && op.ok then [op.route] else [])
  {
    assert (log + [op])[..|log|] == log;
  }

  lemma {:induction false} SucceededDeletes(log: seq<Op>, dels: seq<Op>)
    requires forall k :: 0 <= k < |dels| ==> dels[k].Del?
    ensures Succeeded(log + dels) == Succeeded(log)
    decreases |dels|
  {
    if dels == [] {
      assert log + dels == log;
    } else {
      var front, last := dels[..|dels| - 1], dels[|dels| - 1];
      assert log + dels == (log + front) + [last];
      SucceededAppend(log + front, last);
      SucceededDeletes(log, front);
    }
  }

  lemma AddOneKeeps(s: State, r: Route, accepts: Route -> bool)
    requires Inv(s) && !s.finished
    ensures Inv(AddOne(s, r, accepts)) && !AddOne(s, r, accepts).finished && AddOne(s, r, accepts).closed == s.closed
  {
    hide Succeeded;
    SucceededAppend(s.log, Add(r, accepts(r)));
  }

  lemma {:induction false} AddManyKeeps(s: State, routes: seq<Route>, accepts: Route -> bool)
    requires Inv(s) && !s.finished
    ensures var s' := AddMany(s, routes, accepts); Inv(s') && !s'.finished && s'.closed == s.closed
    decreases |routes|
  {
    hide Inv;
    if routes != [] {
      AddManyKeeps(s, routes[..|routes| - 1], accepts);
      AddOneKeeps(AddMany(s, routes[..|routes| - 1], accepts), routes[|routes| - 1], accepts);
    }
  }

  lemma RemoveKeeps(s: State)
    requires Inv(s) && s.closed && !s.finished
    ensures Inv(Next(s, Remove))
  {
    hide Succeeded, Reversed;
    var dels := Deletes(Reversed(s.applied));
    SucceededDeletes(s.log, dels);
    var log := s.log + dels;
    assert log[..|s.log|] == s.log && log[|s.log|..] == dels;
    assert AddsThenDeletes(log, |s.log|);
  }

  lemma StepKeeps(s: State, step: Step)
    requires Inv(s)
    ensures Inv(Next(s, step))
  {
    match step
    case Apply(viaTun, viaGW, accepts) =>
      if !s.closed {
        assert !s.finished;
        hide Inv;
        AddManyKeeps(s, Via(viaGW, false), accepts);
        AddManyKeeps(AddMany(s, Via(viaGW, false), accepts), Via(viaTun, true), accepts);
      }
    case MarkClosed =>
    case Remove =>
      if s.closed && !s.finished {
        RemoveKeeps(s);
      }
  }

  /** Every interleaving of refreshes with close keeps the invariant. */
  lemma {:induction false} EveryRunKeepsInv(steps: seq<Step>)
    ensures Inv(Run(START, steps))
    decreases |steps|
  {
    if steps != [] {
      hide Inv;
      EveryRunKeepsInv(steps[..|steps| - 1]);
      StepKeeps(Run(START, steps[..|steps| - 1]), steps[|steps| - 1]);
    }
  }

  // ---------------------------------------------------------------- order of the commands

  /** From position n on, the log is a block of gateway adds followed by a block of TUN adds. */
  ghost predicate GatewayFirst(log: seq<Op>, n: nat)
    requires n <= |log|
  {
    && (forall k :: n <= k < |log| ==> log[k].Add?)
    && (forall i, j :: n <= i < j < |log| && log[i].route.viaTun ==> log[j].route.viaTun)
  }

  lemma {:induction false} AddManyLogs(s: State, routes: seq<Route>, accepts: Route -> bool, viaTun: bool)
    requires forall k :: 0 <= k < |routes| ==> routes[k].viaTun == viaTun
    ensures var log := AddMany(s, routes, accepts).log;
            && s.log <= log
            && forall k :: |s.log| <= k < |log| ==> log[k].Add? && log[k].route.viaTun == viaTun
    ensures AddMany(s, routes, accepts).closed == s.closed
    decreases |routes|
  {
    if routes != [] {
      AddManyLogs(s, routes[..|routes| - 1], accepts, viaTun);
    }
  }

  /** Each refresh attempts its gateway routes before its TUN routes, and nothing is added once close is marked. */
  lemma ApplyOrder(s: State, viaTun: seq<Prefix>, viaGW: seq<Prefix>, accepts: Route -> bool)
    ensures var s' := Next(s, Apply(viaTun, viaGW, accepts));
            && s.log <= s'.log && GatewayFirst(s'.log, |s.log|)
            && (s.closed ==> s' == s)
  {
    hide AddMany;
    AddManyLogs(s, Via(viaGW, false), accepts, false);
    AddManyLogs(AddMany(s, Via(viaGW, false), accepts), Via(viaTun, true), accepts, true);
  }

  /** Whatever a plan asks for is installed afterwards, unless the operating system refused it. */
  lemma {:induction false} AddManyInstalls(s: State, routes: seq<Route>, accepts: Route -> bool, r: Route)
    ensures r in AddMany(s, routes, accepts).applied <==> r in s.applied || (r in routes && accepts(r))
    decreases |routes|
  {
    if routes != [] {
      var front, last := routes[..|routes| - 1], routes[|routes| - 1];
      AddManyInstalls(s, front, accepts, r);
      AddManyInstalls(s, front, accepts, last);
      assert routes == front + [last];
    }
  }

  /** A refresh before close installs exactly what was installed or what its plan asks for and is not refused. */
  lemma ApplyInstalls(s: State, viaTun: seq<Prefix>, viaGW: seq<Prefix>, accepts: Route -> bool, r: Route)
    requires !s.closed
    ensures r in Next(s, Apply(viaTun, viaGW, accepts)).applied
            <==> r in s.applied || (accepts(r) && r.prefix in (if r.viaTun then viaTun else viaGW))
  {
    hide AddMany;
    var mid := AddMany(s, Via(viaGW, false), accepts);
    AddManyInstalls(s, Via(viaGW, false), accepts, r);
    AddManyInstalls(mid, Via(viaTun, true), accepts, r);
    AddManyLogs(s, Via(viaGW, false), accepts, false);
    ViaHolds(viaGW, false, r);
    ViaHolds(viaTun, true, r);
  }

  lemma ViaHolds(ps: seq<Prefix>, viaTun: bool, r: Route)
    ensures r in Via(ps, viaTun) <==> r.viaTun == viaTun && r.prefix in ps
  {
    var v := Via(ps, viaTun);
    if r.viaTun == viaTun && r.prefix in ps {
      var k :| 0 <= k < |ps| && ps[k] == r.prefix;
      assert v[k] == r;
    }
  }

  // ---------------------------------------------------------------- close

  /** One delete per route, the last one first. */
  ghost predicate DeletesBackwards(routes: seq<Route>, dels: seq<Op>) {
    |dels| == |routes| && forall k :: 0 <= k < |dels| ==> dels[k] == Del(routes[|routes| - 1 - k])
  }

  /** Nothing is left, and exactly these deletes were added to the log. */
  ghost predicate Removed(before: State, after: State) {
    && after.applied == [] && after.closed && after.finished
    && before.log <= after.log && DeletesBackwards(before.applied, after.log[|before.log|..])
  }

  lemma {:induction false} ReversedDeletes(routes: seq<Route>)
    ensures DeletesBackwards(routes, Deletes(Reversed(routes)))
    decreases |routes|
  {
    if routes != [] {
      var front, last := routes[..|routes| - 1], routes[|routes| - 1];
      ReversedDeletes(front);
      var dels := Deletes(Reversed(routes));
      assert dels == [Del(last)] + Deletes(Reversed(front));
      forall k | 0 < k < |dels|
        ensures dels[k] == Del(routes[|routes| - 1 - k])
      {
        assert dels[k] == Deletes(Reversed(front))[k - 1];
      }
    }
  }

  lemma RemoveRemoves(s: State)
    requires s.closed && !s.finished
    ensures Removed(s, Next(s, Remove))
  {
    hide Reversed, DeletesBackwards;
    ReversedDeletes(s.applied);
    var dels := Deletes(Reversed(s.applied));
    assert (s.log + dels)[|s.log|..] == dels;
  }

  /** A step that does not remove leaves a closed manager as it is, and nothing opens it again. */
  lemma ClosedStays(s: State, step: Step)
    requires s.closed
    ensures Next(s, step).closed && (step != Remove || s.finished ==> Next(s, step) == s)
  {
  }

  /** Refreshes behind the mark change nothing. */
  lemma {:induction false} QuietAfterMark(s: State, steps: seq<Step>)
    requires s.closed && (s.finished || forall k :: 0 <= k < |steps| ==> steps[k] != Remove)
    ensures Run(s, steps) == s
    decreases |steps|
  {
    if steps != [] {
      QuietAfterMark(s, steps[..|steps| - 1]);
      ClosedStays(s, steps[|steps| - 1]);
    }
  }

  lemma {:induction false} RunConcat(s: State, a: seq<Step>, b: seq<Step>)
    ensures Run(s, a + b) == Run(Run(s, a), b)
    decreases |b|
  {
    hide Next;
    if b == [] {
      assert a + b == a;
    } else {
      assert (a + b)[..|a + b| - 1] == a + b[..|b| - 1];
      RunConcat(s, a, b[..|b| - 1]);
    }
  }

  /**
   A whole close, with refreshes before it and between its two critical sections, and anything after
   it: every route that was installed at the mark is deleted, last first, and no command follows.
   */
  lemma CloseRemovesAll(before: seq<Step>, between: seq<Step>, after: seq<Step>)
    requires forall k :: 0 <= k < |before| ==> before[k].Apply?
    requires forall k :: 0 <= k < |between| ==> between[k] != Remove
    ensures Removed(Run(START, before), Run(START, before + [MarkClosed] + between + [Remove] + after))
  {
    hide Next, Inv;
    var s := Run(START, before);
    OpenUntilMark(before);
    RunConcat(START, before + [MarkClosed] + between + [Remove], after);
    RunConcat(START, before + [MarkClosed] + between, [Remove]);
    RunConcat(START, before + [MarkClosed], between);
    RunConcat(START, before, [MarkClosed]);
    RunOne(s, MarkClosed);
    var marked := Next(s, MarkClosed);
    Marks(s);
    QuietAfterMark(marked, between);
    RunOne(marked, Remove);
    RemoveRemoves(marked);
    QuietAfterMark(Next(marked, Remove), after);
  }

  lemma RunOne(s: State, step: Step)
    ensures Run(s, [step]) == Next(s, step)
  {
    assert [step][..0] == [];
    assert Run(s, [step][..0]) == s;
  }

  lemma Marks(s: State)
    ensures Next(s, MarkClosed) == s.(closed := true)
  {
  }

  lemma {:induction false} OpenUntilMark(steps: seq<Step>)
    requires forall k :: 0 <= k < |steps| ==> steps[k].Apply?
    ensures !Run(START, steps).closed && !Run(START, steps).finished
    decreases |steps|
  {
    if steps != [] {
      var s, step := Run(START, steps[..|steps| - 1]), steps[|steps| - 1];
      OpenUntilMark(steps[..|steps| - 1]);
      EveryRunKeepsInv(steps[..|steps| - 1]);
      hide Inv;
      AddManyKeeps(s, Via(step.viaGW, false), step.accepts);
      AddManyKeeps(AddMany(s, Via(step.viaGW, false), step.accepts), Via(step.viaTun, true), step.accepts);
    }
  }

  // ---------------------------------------------------------------- the object

  class Manager {
    var applied: seq<Route>
    var installed: set<Route>
    var closed: bool
    ghost var finished: bool
    ghost var log: seq<Op>

    ghost predicate Valid()
      reads this
    {
      (forall r :: r in installed <==> r in applied) && (finished ==> closed) && Inv(Abstract())
    }

    ghost function Abstract(): State
      reads this
    {
      State(applied, closed, finished, log)
    }

    constructor ()
      ensures Valid() && Abstract() == START
    {
      applied, installed, closed, finished, log := [], {}, false, false, [];
    }

    method AddLocked(r: Route, accepts: Route -> bool)
      requires Valid() && !finished
      modifies this`applied, this`installed, this`log
      ensures Valid() && Abstract() == AddOne(old(Abstract()), r, accepts)
    {
      hide Inv;
      AddOneKeeps(Abstract(), r, accepts);
      if r in installed { return; }
      log := log + [Add(r, accepts(r))];
      if !accepts(r) { return; }
      installed := installed + {r};
      applied := applied + [r];
    }

    /** Installs what is missing: gateway routes first, nothing once closed. */
    method ApplyPlan(viaTun: seq<Prefix>, viaGW: seq<Prefix>, accepts: Route -> bool)
      requires Valid()
      modifies this`applied, this`installed, this`log
      ensures Valid() && Abstract() == Next(old(Abstract()), Apply(viaTun, viaGW, accepts))
    {
      if closed { return; }
      assert !finished;
      hide Inv;
      ghost var s := Abstract();
      AddAll(Via(viaGW, false), accepts);
      AddAll(Via(viaTun, true), accepts);
    }

    method AddAll(routes: seq<Route>, accepts: Route -> bool)
      requires Valid() && !finished
      modifies this`applied, this`installed, this`log
      ensures Valid() && Abstract() == AddMany(old(Abstract()), routes, accepts)
    {
      hide Inv;
      ghost var s := Abstract();
      assert routes[..0] == [];
      var i := 0;
      while i < |routes|
        invariant i <= |routes| && Valid() && !finished
        invariant Abstract() == AddMany(s, routes[..i], accepts)
      {
        AddLocked(routes[i], accepts);
        assert routes[..i + 1][..i] == routes[..i];
        i := i + 1;
      }
      assert routes[..i] == routes;
    }

    /** The first critical section of close. */
    method Mark() returns (first: bool)
      requires Valid()
      modifies this`closed
      ensures Valid() && closed && first == !old(closed) && Abstract() == Next(old(Abstract()), MarkClosed)
    {
      StepKeeps(Abstract(), MarkClosed);
      hide Inv;
      if closed { return false; }
      closed := true;
      first := true;
    }

    /** The loop of close: one delete command per installed route. */
    method DeleteBackwards()
      modifies this`log
      ensures log == old(log) + Deletes(Reversed(applied))
    {
      hide Reversed, Deletes;
      ghost var all := log + Deletes(Reversed(applied));
      var i := |applied|;
      assert applied[..i] == applied;
      while i > 0
        invariant 0 <= i <= |applied|
        invariant log + Deletes(Reversed(applied[..i])) == all
      {
        i := i - 1;
        LastFirst(applied, i);
        ghost var rest := Deletes(Reversed(applied[..i]));
        assert log + ([Del(applied[i])] + rest) == (log + [Del(applied[i])]) + rest;
        log := log + [Del(applied[i])];
      }
      NothingLeft(applied);
      assert log + [] == log;
    }

    /** The second one: deletes every installed route, last first. */
    method RemoveAll()
      requires Valid() && closed && !finished
      modifies this
      ensures Valid() && Abstract() == Next(old(Abstract()), Remove)
      ensures applied == [] && installed == {} && finished
      ensures old(log) <= log && DeletesBackwards(old(applied), log[|old(log)|..])
    {
      hide Inv, Reversed, Deletes, DeletesBackwards;
      ghost var s := Abstract();
      StepKeeps(s, Remove);
      DeleteBackwards();
      applied, installed, finished := [], {}, true;
      assert Abstract() == Next(s, Remove);
      hide Next;
      RemoveRemoves(s);
    }
  }

  lemma LastFirst(routes: seq<Route>, i: nat)
    requires i < |routes|
    ensures Deletes(Reversed(routes[..i + 1])) == [Del(routes[i])] + Deletes(Reversed(routes[..i]))
  {
    var rest := Reversed(routes[..i]);
    assert routes[..i + 1][..i] == routes[..i];
    assert Reversed(routes[..i + 1]) == [routes[i]] + rest;
  }

  lemma NothingLeft(routes: seq<Route>)
    ensures Deletes(Reversed(routes[..0])) == []
  {
  }
}
