/** What holds of one lone port over its runs holds of every input of the delivery protocol: in every
    interleaving its port is the result of a run whose writes are its arrivals since the last reset. */
module DeliveryPorts {
  import opened Common
  import opened PortSpec
  import opened PortRuns
  import opened Delivery
  import opened DeliveryInvariants
  import opened DeliveryTheorems

  /** The run `ops` of a lone port led to what this input holds, accepted what arrived here since the last
      reset, and handed out what was handed out here since. */
  ghost predicate Follows<T>(inlet: Inlet<T>, ops: seq<Op<Item<T>>>) {
    var h := PortRuns.Run(inlet.port.kind, ops);
    && h.port == inlet.port
    && inlet.resetAt <= |inlet.arrivals| && h.accepted == inlet.arrivals[inlet.resetAt..]
    && inlet.handedAt <= |inlet.handed| && h.handed == inlet.handed[inlet.handedAt..]
  }

  ghost predicate Followed<T(!new)>(inlet: Inlet<T>) {
    exists ops: seq<Op<Item<T>>> :: Follows(inlet, ops)
  }

  /** Each of the three things that happen to an input is one operation of the run. */
  lemma FollowsOn<T>(inlet: Inlet<T>, ops: seq<Op<Item<T>>>, item: Item<T>, all: bool)
    requires Follows(inlet, ops) && ValidKind(inlet.port.kind)
    ensures Follows(Receive(inlet, item), ops + [Op.Write(item)])
    ensures Follows(ReadInlet(inlet, all), ops + [if all then TakeAll else TakeOne])
    ensures Follows(Delivery.Clear(inlet), ops + [Op.Clear])
  {
    var kind := inlet.port.kind;
    var h := PortRuns.Run(kind, ops);
    Conservation(kind, ops);
    RunLonger(kind, ops, Op.Write(item));
    RunLonger(kind, ops, if all then TakeAll else TakeOne);
    RunLonger(kind, ops, Op.Clear);
    FollowsWrite(inlet, h, item);
    FollowsRead(inlet, h, all);
  }

  lemma FollowsWrite<T>(inlet: Inlet<T>, h: History<Item<T>>, item: Item<T>)
    requires h.port == inlet.port && ValidKind(inlet.port.kind)
    requires inlet.resetAt <= |inlet.arrivals| && h.accepted == inlet.arrivals[inlet.resetAt..]
    ensures Accept(inlet.port, item).kind == inlet.port.kind
    ensures PortRuns.Step(h, Op.Write(item)).accepted == Receive(inlet, item).arrivals[inlet.resetAt..]
  {}

  lemma FollowsRead<T>(inlet: Inlet<T>, h: History<Item<T>>, all: bool)
    requires h.port == inlet.port
    requires inlet.handedAt <= |inlet.handed| && h.handed == inlet.handed[inlet.handedAt..]
    ensures var now, next := PortRuns.Step(h, if all then TakeAll else TakeOne), ReadInlet(inlet, all);
            && now.port == next.port && next.port.kind == inlet.port.kind
            && next.handedAt == inlet.handedAt <= |next.handed| && now.handed == next.handed[next.handedAt..]
  {
    var before := inlet.handed[..inlet.handedAt];
    assert inlet.handed == before + h.handed;
    var now, next := PortRuns.Step(h, if all then TakeAll else TakeOne), ReadInlet(inlet, all);
    assert next.handed == before + now.handed;
  }

  ghost predicate AllFollowed<T(!new)>(s: System<T>) {
    forall i | 0 <= i < |s.inlets| :: Followed(s.inlets[i])
  }

  lemma FollowedOn<T(!new)>(inlet: Inlet<T>, item: Item<T>, all: bool)
    requires Followed(inlet) && ValidKind(inlet.port.kind)
    ensures Followed(Receive(inlet, item)) && Followed(ReadInlet(inlet, all)) && Followed(Delivery.Clear(inlet))
  {
    hide Follows;
    var ops :| Follows(inlet, ops);
    FollowsOn(inlet, ops, item, all);
  }

  /** Every step leaves an input as it is or does one of the three things to it. */
  lemma FollowedStep<T(!new)>(s: System<T>, a: Action<T>)
    requires Shape(s) && AllFollowed(s)
    ensures AllFollowed(Next(s, a))
  {
    hide Followed, Receive, ReadInlet, Delivery.Clear;
    var s' := Next(s, a);
    if a.Deliver? && CanDeliver(s, a.t) {
      var w := Current(s.writers[a.t]);
      var i := w.targets[w.pos];
      assert InletOk(|s.readers|, s.inlets[i]);
      FollowedOn(s.inlets[i], Carried(s, a.t), false);
    } else if (a.Visit? || a.Read? || a.ResetInlet?) && a.i < |s.inlets| {
      assert InletOk(|s.readers|, s.inlets[a.i]);
      FollowedOn(s.inlets[a.i], Item(0, 0, 0, None), !a.ResetInlet? && a.all);
    } else {
      assert s'.inlets == s.inlets;
    }
  }

  lemma {:induction false} RunFollowed<T(!new)>(s: System<T>, actions: seq<Action<T>>)
    requires Invariant(s) && AllFollowed(s)
    ensures AllFollowed(Delivery.Run(s, actions))
  {
    hide Invariant, AllFollowed, Next;
    if actions != [] {
      var n := |actions| - 1;
      RunFollowed(s, actions[..n]);
      RunInvariant(s, actions[..n]);
      assert Shape(Delivery.Run(s, actions[..n])) by { InvariantShape(Delivery.Run(s, actions[..n])); }
      FollowedStep(Delivery.Run(s, actions[..n]), actions[n]);
    }
  }

  lemma InitialFollowed<T(!new)>(s: System<T>)
    requires Initial(s)
    ensures AllFollowed(s)
  {
    forall i | 0 <= i < |s.inlets| ensures Followed(s.inlets[i]) {
      assert Follows(s.inlets[i], []);
    }
  }

  /** In every reachable state each input is where a run of its own port led. */
  lemma InputsFollowRuns<T(!new)>(s0: System<T>, s: System<T>, i: nat) returns (ops: seq<Op<Item<T>>>)
    requires Reachable(s0, s) && i < |s.inlets|
    ensures Follows(s.inlets[i], ops) && ValidKind(s.inlets[i].port.kind)
  {
    hide Follows;
    InitialFollowed(s0);
    InitialInvariant(s0);
    var actions :| s == Delivery.Run(s0, actions);
    RunFollowed(s0, actions);
    ReachableInvariant(s0, s);
    assert Followed(s.inlets[i]) && InletOk(|s.readers|, s.inlets[i]);
    ops :| Follows(s.inlets[i], ops);
  }

  /** In every interleaving of any number of writers, connections and readers, and for either kind of input:
      what arrived since the reset is what was handed out, what was lost and what is pending; the counters
      are those numbers in 64 bits; the peak is the largest pending count since the reset; and what the
      overflow policy keeps of the arrivals is what it keeps of a single writer's. */
  lemma InputsConserve<T(!new)>(s0: System<T>, s: System<T>, i: nat) returns (h: History<Item<T>>)
    requires Reachable(s0, s) && i < |s.inlets|
    ensures var inlet := s.inlets[i];
            && h.port == inlet.port
            && inlet.resetAt <= |inlet.arrivals| && h.accepted == inlet.arrivals[inlet.resetAt..]
            && inlet.handedAt <= |inlet.handed| && h.handed == inlet.handed[inlet.handedAt..]
    ensures Conserves(h) && PeakIsMax(h)
    ensures if Refuses(h.port.kind) then KeepsRoomy(h) else KeepsTail(h)
  {
    hide Conserves, PeakIsMax, KeepsRoomy, KeepsTail;
    var ops := InputsFollowRuns(s0, s, i);
    var kind := s.inlets[i].port.kind;
    h := PortRuns.Run(kind, ops);
    Conservation(kind, ops);
    if Refuses(kind) {
      IncomingDroppedKeepsRun(kind.capacity, ops);
    } else {
      OldestDroppedKeepsTail(kind, ops);
    }
  }
}
