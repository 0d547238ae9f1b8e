/** What wakes a reader, what its passes do, and that an unread value is always got out without waiting for a
    time-out. */
module DeliveryWakes {
  import opened Common
  import opened PortSpec
  import opened Delivery
  import opened DeliveryInvariants
  import opened DeliveryTheorems

  // ----- Waiting -----

  /** A raised signal ends the wait: the reader takes the signal down and starts a pass over every input it is
      notified by, finding nothing so far. Without a signal only the time-out ends it. */
  lemma WaitEnds<T>(s: System<T>, r: nat, signaled: bool)
    requires r < |s.readers| && s.readers[r] == Reader(signaled, Waiting)
    ensures var awake := Reader(false, Pass(set i | 0 <= i < |s.inlets| && s.inlets[i].signal == Some(r), false));
            && Next(s, Wake(r, true)) == s.(readers := s.readers[r := awake])
            && Next(s, Wake(r, false)) == if signaled then s.(readers := s.readers[r := awake]) else s
  {
    assert s.readers[r := Reader(false, Waiting)][r] == Reader(false, Waiting);
    if !signaled {
      assert s.readers[r := s.readers[r]] == s.readers;
    }
  }

  // ----- A pass -----

  function Visits<T>(r: nat, order: seq<nat>, all: bool): seq<Action<T>> {
    seq(|order|, k requires 0 <= k < |order| => Visit(r, order[k], all))
  }

  function Elements(order: seq<nat>): set<nat> {
    set i | i in order
  }

  /** Some input among these has something to read. */
  ghost predicate AnyPending<T>(s: System<T>, inputs: set<nat>) {
    exists i :: i in inputs && i < |s.inlets| && Pending(s.inlets[i].port) != []
  }

  /** Where reader `r` stands after visiting these inputs, each once, in whatever order: each of them was read
      as it was found and every other input is untouched; what is ahead is the rest, and the reader was busy
      if one of them had something to read. */
  ghost predicate Visited<T>(s: System<T>, s': System<T>, r: nat, inputs: set<nat>, all: bool)
    requires r < |s.readers| && s.readers[r].phase.Pass?
  {
    var was := s.readers[r];
    && s'.writers == s.writers && s'.outlets == s.outlets && |s'.inlets| == |s.inlets|
    && (forall i | 0 <= i < |s.inlets| ::
          s'.inlets[i] == if i in inputs then ReadInlet(s.inlets[i], all) else s.inlets[i])
    && s'.readers == s.readers[r :=
         Reader(was.signaled, Pass(was.phase.todo - inputs, was.phase.busy || AnyPending(s, inputs)))]
  }

  lemma {:induction false} PassVisits<T>(s: System<T>, r: nat, order: seq<nat>, all: bool)
    requires r < |s.readers| && s.readers[r].phase.Pass? && Distinct(order)
    requires forall i | i in order :: i in s.readers[r].phase.todo && i < |s.inlets|
    ensures Visited(s, Run(s, Visits(r, order, all)), r, Elements(order), all)
  {
    hide Visited, VisitStep, Run, Next;
    if order == [] {
      NoneVisited(s, r, all);
      assert Run(s, Visits(r, order, all)) == s by { RunNothing(s); }
      assert Visits<T>(r, order, all) == [];
    } else {
      var n := |order| - 1;
      var front, i := order[..n], order[n];
      assert order == front + [i];
      assert i in order && i !in Elements(front);
      PassVisits(s, r, front, all);
      var before := Run(s, Visits(r, front, all));
      assert Visits<T>(r, order, all) == Visits(r, front, all) + [Visit(r, i, all)];
      RunAppend(s, Visits(r, front, all), Visit(r, i, all));
      VisitOne(s, before, r, Elements(front), i, all);
      VisitNext(before, r, i, all);
      assert Elements(order) == Elements(front) + {i};
    }
  }

  lemma VisitNext<T>(s: System<T>, r: nat, i: nat, all: bool)
    requires CanVisit(s, r, i)
    ensures Next(s, Visit(r, i, all)) == VisitStep(s, r, i, all)
  {}

  lemma NoneVisited<T>(s: System<T>, r: nat, all: bool)
    requires r < |s.readers| && s.readers[r].phase.Pass?
    ensures Visited(s, s, r, Elements([]), all)
  {
    hide ReadInlet;
    assert s.readers[r := Reader(s.readers[r].signaled, s.readers[r].phase)] == s.readers;
    assert s.readers[r].phase.todo - Elements([]) == s.readers[r].phase.todo;
  }

  lemma VisitOne<T>(s: System<T>, before: System<T>, r: nat, done: set<nat>, i: nat, all: bool)
    requires r < |s.readers| && s.readers[r].phase.Pass? && Visited(s, before, r, done, all)
    requires i < |s.inlets| && i !in done && i in s.readers[r].phase.todo
    ensures CanVisit(before, r, i) && Visited(s, VisitStep(before, r, i, all), r, done + {i}, all)
  {
    hide ReadInlet;
    var todo := s.readers[r].phase.todo;
    assert todo - done - {i} == todo - (done + {i});
    assert AnyPending(s, done + {i}) <==> AnyPending(s, done) || Pending(s.inlets[i].port) != [];
  }

  lemma {:induction false} RunConcat<T>(s: System<T>, a: seq<Action<T>>, b: seq<Action<T>>)
    ensures Run(s, a + b) == Run(Run(s, a), b)
    decreases |b|
  {
    hide Next;
    if b == [] {
      assert a + b == a;
    } else {
      var n := |b| - 1;
      RunConcat(s, a, b[..n]);
      assert (a + b)[..|a + b| - 1] == a + b[..n];
    }
  }

  lemma RunNothing<T>(s: System<T>)
    ensures Run(s, []) == s
  {}

  lemma RunOne<T>(s: System<T>, a: Action<T>)
    ensures Run(s, [a]) == Next(s, a)
  {
    assert [a][..0] == [] && Run(s, []) == s;
  }

  /** Where a pass ends that visits all it has ahead and may sleep: asleep if none of those inputs had anything
      to read and none before had, and otherwise at the start of another pass over everything it watches. */
  lemma PassEnds<T>(s: System<T>, r: nat, order: seq<nat>, all: bool)
    requires r < |s.readers| && s.readers[r].phase.Pass? && Distinct(order)
    requires Elements(order) == s.readers[r].phase.todo && forall i | i in order :: i < |s.inlets|
    ensures var idle := !s.readers[r].phase.busy && !AnyPending(s, s.readers[r].phase.todo);
            var s' := Run(s, Visits(r, order, all) + [EndPass(r, true)]);
            && s'.writers == s.writers && s'.outlets == s.outlets && |s'.inlets| == |s.inlets|
            && (forall i | 0 <= i < |s.inlets| ::
                  s'.inlets[i] == if i in order then ReadInlet(s.inlets[i], all) else s.inlets[i])
            && s'.readers == s.readers[r :=
                 Reader(s.readers[r].signaled, if idle then Waiting else Pass(Watched(s, r), false))]
  {
    hide Visited, ReadInlet, Next;
    PassVisits(s, r, order, all);
    RunAppend(s, Visits(r, order, all), EndPass(r, true));
    EndAfterVisits(s, Run(s, Visits(r, order, all)), r, all);
    assert forall i :: i in order <==> i in Elements(order);
  }

  lemma EndAfterVisits<T>(s: System<T>, visited: System<T>, r: nat, all: bool)
    requires r < |s.readers| && s.readers[r].phase.Pass?
    requires Visited(s, visited, r, s.readers[r].phase.todo, all)
    ensures var idle := !s.readers[r].phase.busy && !AnyPending(s, s.readers[r].phase.todo);
            var s' := Next(visited, EndPass(r, true));
            && s'.writers == s.writers && s'.outlets == s.outlets && |s'.inlets| == |s.inlets|
            && (forall i | 0 <= i < |s.inlets| ::
                  s'.inlets[i] == if i in s.readers[r].phase.todo then ReadInlet(s.inlets[i], all) else s.inlets[i])
            && s'.readers == s.readers[r :=
                 Reader(s.readers[r].signaled, if idle then Waiting else Pass(Watched(s, r), false))]
  {
    hide ReadInlet, AnyPending;
    assert s.readers[r].phase.todo - s.readers[r].phase.todo == {};
    assert Watched(visited, r) == Watched(s, r) by {
      forall i | 0 <= i < |s.inlets| ensures visited.inlets[i].signal == s.inlets[i].signal {
        SignalKept(s.inlets[i], all);
      }
    }
  }

  lemma SignalKept<T>(inlet: Inlet<T>, all: bool)
    ensures ReadInlet(inlet, all).signal == inlet.signal
  {}

  // ----- Getting an unread value out -----

  /** The schedule runs reader `r` alone, and at most one notification first. The reader sleeps whenever it may,
      and no wait is ended by its time-out. */
  ghost predicate Prompt<T>(actions: seq<Action<T>>, r: nat) {
    forall k | 0 <= k < |actions| ::
      match actions[k]
      case Notify(_) => k == 0
      case Visit(q, _, _) => q == r
      case EndPass(q, sleep) => q == r && sleep
      case Wake(q, timeout) => q == r && !timeout
      case _ => false
  }

  /** The reader of input `i` was handed all it had to read, or the first of it. */
  ghost predicate GotOut<T>(was: Inlet<T>, now: Inlet<T>, all: bool)
    requires Pending(was.port) != []
  {
    var unread := Pending(was.port);
    && now.handed == was.handed + (if all then unread else unread[..1])
    && Pending(now.port) == if all then [] else unread[1..]
  }

  lemma ReadGetsOut<T>(inlet: Inlet<T>, all: bool)
    requires Pending(inlet.port) != []
    ensures GotOut(inlet, ReadInlet(inlet, all), all)
  {}

  lemma {:induction false} InSomeOrder(inputs: set<nat>) returns (order: seq<nat>)
    ensures Distinct(order) && Elements(order) == inputs
  {
    if inputs == {} {
      order := [];
    } else {
      var i :| i in inputs;
      var rest := InSomeOrder(inputs - {i});
      order := rest + [i];
      assert i !in rest by {
        assert i in rest ==> i in Elements(rest);
      }
      forall x ensures x in Elements(order) <==> x in inputs {
        assert x in Elements(rest) <==> x in inputs - {i};
      }
    }
  }

  /** A reader in the middle of a pass that has the input ahead of it. */
  lemma VisitGetsOut<T>(s: System<T>, r: nat, i: nat, all: bool)
    requires CanVisit(s, r, i) && Pending(s.inlets[i].port) != []
    ensures var s' := Run(s, [Visit(r, i, all)]);
            |s'.inlets| == |s.inlets| && GotOut(s.inlets[i], s'.inlets[i], all)
  {
    ReadGetsOut(s.inlets[i], all);
    RunOne(s, Visit(r, i, all));
  }

  /** A reader asleep with its signal up. */
  lemma WakeGetsOut<T>(s: System<T>, r: nat, i: nat, all: bool)
    requires r < |s.readers| && i < |s.inlets| && s.inlets[i].signal == Some(r)
    requires s.readers[r] == Reader(true, Waiting) && Pending(s.inlets[i].port) != []
    ensures var s' := Run(s, [Wake(r, false), Visit(r, i, all)]);
            |s'.inlets| == |s.inlets| && GotOut(s.inlets[i], s'.inlets[i], all)
  {
    hide ReadInlet, GotOut;
    WaitEnds(s, r, true);
    var woken := Next(s, Wake(r, false));
    VisitGetsOut(woken, r, i, all);
    var wake, visit: Action<T> := Wake(r, false), Visit(r, i, all);
    RunConcat(s, [wake], [visit]);
    RunOne(s, wake);
    assert [wake] + [visit] == [wake, visit];
  }

  /** Whatever its reader is doing, if it is bound to look again it gets the value out. */
  lemma LookingGetsOut<T>(s: System<T>, r: nat, i: nat, all: bool) returns (actions: seq<Action<T>>)
    requires Passing(s) && r < |s.readers| && i < |s.inlets| && s.inlets[i].signal == Some(r)
    requires Pending(s.inlets[i].port) != []
    requires var reader := s.readers[r];
             reader.signaled || (reader.phase.Pass? && (i in reader.phase.todo || reader.phase.busy))
    ensures Prompt(actions, r) && (forall k | 0 <= k < |actions| :: !actions[k].Notify?)
    ensures |Run(s, actions).inlets| == |s.inlets| && GotOut(s.inlets[i], Run(s, actions).inlets[i], all)
  {
    hide ReadInlet, GotOut;
    if s.readers[r].phase.Waiting? {
      actions := [Wake(r, false), Visit(r, i, all)];
      WakeGetsOut(s, r, i, all);
    } else if i in s.readers[r].phase.todo {
      actions := [Visit(r, i, all)];
      VisitGetsOut(s, r, i, all);
    } else {
      actions := NextPassGetsOut(s, r, i, all);
    }
  }

  /** A reader past the input in its pass, which will not stay asleep after it. */
  lemma NextPassGetsOut<T>(s: System<T>, r: nat, i: nat, all: bool) returns (actions: seq<Action<T>>)
    requires Passing(s) && r < |s.readers| && i < |s.inlets| && s.inlets[i].signal == Some(r)
    requires Pending(s.inlets[i].port) != []
    requires s.readers[r].phase.Pass? && i !in s.readers[r].phase.todo
    requires s.readers[r].signaled || s.readers[r].phase.busy
    ensures Prompt(actions, r) && (forall k | 0 <= k < |actions| :: !actions[k].Notify?)
    ensures |Run(s, actions).inlets| == |s.inlets| && GotOut(s.inlets[i], Run(s, actions).inlets[i], all)
  {
    hide ReadInlet, GotOut, Run;
    var order := InSomeOrder(s.readers[r].phase.todo);
    assert forall j | j in order :: j in Elements(order);
    var pass := Visits<T>(r, order, all) + [EndPass(r, true)];
    PassEnds(s, r, order, all);
    var ended := Run(s, pass);
    assert ended.inlets[i] == s.inlets[i];
    var last: seq<Action<T>>;
    if ended.readers[r].phase.Waiting? {
      last := [Wake(r, false), Visit(r, i, all)];
      WakeGetsOut(ended, r, i, all);
    } else {
      last := [Visit(r, i, all)];
      VisitGetsOut(ended, r, i, all);
    }
    actions := pass + last;
    RunConcat(s, pass, last);
  }

  /** From every reachable state with an unread value in a notified input there is a schedule that gets it out:
      its reader alone runs, after at most one notification a writer still owes, sleeps whenever it may, and no
      time-out is needed. So no value waits for one, whether the reader drains or takes one at a time. */
  lemma UnreadIsGotOut<T(!new)>(s0: System<T>, s: System<T>, i: nat, r: nat, all: bool)
    returns (actions: seq<Action<T>>)
    requires Reachable(s0, s) && i < |s.inlets| && s.inlets[i].signal == Some(r)
    requires Pending(s.inlets[i].port) != []
    ensures Prompt(actions, r)
    ensures |Run(s, actions).inlets| == |s.inlets| && GotOut(s.inlets[i], Run(s, actions).inlets[i], all)
  {
    hide GotOut;
    ReachableInvariant(s0, s);
    assert Watchful(s, i) && InletOk(|s.readers|, s.inlets[i]);
    var reader := s.readers[r];
    if reader.signaled || (reader.phase.Pass? && (i in reader.phase.todo || reader.phase.busy)) {
      actions := LookingGetsOut(s, r, i, all);
    } else {
      var t: nat :| Owes(s, t, i);
      assert CanNotify(s, t);
      var told := NotifyStep(s, t);
      assert told.readers[r].signaled;
      PassingStep(s, Notify(t)) by {
        GrowsStep(s, Notify(t));
      }
      var rest := LookingGetsOut(told, r, i, all);
      actions := [Notify(t)] + rest;
      RunConcat(s, [Notify(t)], rest);
      RunOne(s, Notify(t));
    }
  }
}
