/** What every step of the delivery protocol keeps. */
module DeliveryInvariants {
  import opened Common
  import opened PortSpec
  import opened Delivery

  // ----- Shape: lists, snapshots and positions -----

  ghost predicate ListOk<T>(s: System<T>, targets: seq<nat>) {
    Distinct(targets) && forall k | 0 <= k < |targets| :: targets[k] < |s.inlets|
  }

  /** The object of a write is intact until the one move to the last subscriber has happened. */
  ghost predicate WriteOk<T>(s: System<T>, w: Write<T>) {
    && ListOk(s, w.targets)
    && w.pos <= |w.targets|
    && (w.intact <==> !(w.owned && w.targets != [] && w.pos == |w.targets|))
    && (w.owing ==> 0 < w.pos && s.inlets[w.targets[w.pos - 1]].signal.Some?)
  }

  ghost predicate InletOk<T>(readers: nat, inlet: Inlet<T>) {
    && ValidKind(inlet.port.kind)
    && |Pending(inlet.port)| <= Capacity(inlet.port.kind)
    && (inlet.signal.Some? ==> inlet.signal.value < readers)
    && inlet.resetAt <= |inlet.arrivals|
    && Counts(inlet.port.received, |inlet.arrivals| - inlet.resetAt)
  }

  ghost predicate OutletOk(outlet: Outlet) {
    outlet.resetAt <= outlet.issued && Counts(outlet.writes, outlet.issued - outlet.resetAt)
  }

  ghost predicate Shape<T>(s: System<T>) {
    && (forall i | 0 <= i < |s.inlets| :: InletOk(|s.readers|, s.inlets[i]))
    && (forall o | 0 <= o < |s.outlets| ::
          ListOk(s, s.outlets[o].targets) && OutletOk(s.outlets[o]))
    && (forall t | 0 <= t < |s.writers| :: WriterOk(s, s.writers[t]))
  }

  /** What no step changes: how many of everything there are, and which signal an input fires. */
  ghost predicate SameWiring<T>(s: System<T>, s': System<T>) {
    && |s'.inlets| == |s.inlets| && |s'.outlets| == |s.outlets|
    && |s'.writers| == |s.writers| && |s'.readers| == |s.readers|
    && forall i | 0 <= i < |s.inlets| :: s'.inlets[i].signal == s.inlets[i].signal
                                         && s'.inlets[i].port.kind == s.inlets[i].port.kind
  }

  lemma ReceiveOk<T>(readers: nat, inlet: Inlet<T>, item: Item<T>)
    requires InletOk(readers, inlet)
    ensures InletOk(readers, Receive(inlet, item))
  {
    AcceptPending(inlet.port, item);
    CountsTick(inlet.port.received, |inlet.arrivals| - inlet.resetAt);
  }

  /** The writes of one thread: well formed, and finished all but the last. */
  ghost predicate WriterOk<T>(s: System<T>, ws: seq<Write<T>>) {
    forall n | 0 <= n < |ws| :: WriteOk(s, ws[n]) && (n < |ws| - 1 ==> Done(ws[n]))
  }

  /** Well-formedness of what did not change does not depend on the rest of the state. */
  lemma WriterStays<T>(s: System<T>, s': System<T>, ws: seq<Write<T>>)
    requires SameWiring(s, s') && WriterOk(s, ws)
    ensures WriterOk(s', ws)
  {
    forall n | 0 <= n < |ws| ensures WriteOk(s', ws[n]) {}
  }

  lemma WritersStay<T>(s: System<T>, s': System<T>)
    requires Shape(s) && SameWiring(s, s') && s'.writers == s.writers
    ensures forall t | 0 <= t < |s'.writers| :: WriterOk(s', s'.writers[t])
  {
    forall t | 0 <= t < |s'.writers| ensures WriterOk(s', s'.writers[t]) {
      WriterStays(s, s', s.writers[t]);
    }
  }

  lemma BeginShape<T>(s: System<T>, t: nat, o: nat, v: T, owned: bool)
    requires Shape(s) && CanBegin(s, t, o)
    ensures Shape(BeginStep(s, t, o, v, owned)) && SameWiring(s, BeginStep(s, t, o, v, owned))
  {
    var s' := BeginStep(s, t, o, v, owned);
    CountsTick(s.outlets[o].writes, s.outlets[o].issued - s.outlets[o].resetAt);
    forall u | 0 <= u < |s'.writers| ensures WriterOk(s', s'.writers[u]) {
      WriterStays(s, s', s.writers[u]);
    }
  }

  lemma DeliverShape<T>(s: System<T>, t: nat)
    requires Shape(s) && CanDeliver(s, t)
    ensures Shape(DeliverStep(s, t)) && SameWiring(s, DeliverStep(s, t))
  {
    var s' := DeliverStep(s, t);
    var w := Current(s.writers[t]);
    ReceiveOk(|s.readers|, s.inlets[w.targets[w.pos]], Carried(s, t));
    forall u | 0 <= u < |s'.writers| ensures WriterOk(s', s'.writers[u]) {
      WriterStays(s, s', s.writers[u]);
    }
  }

  lemma NotifyShape<T>(s: System<T>, t: nat)
    requires Shape(s) && CanNotify(s, t)
    ensures Shape(NotifyStep(s, t)) && SameWiring(s, NotifyStep(s, t))
  {
    var s' := NotifyStep(s, t);
    forall u | 0 <= u < |s'.writers| ensures WriterOk(s', s'.writers[u]) {
      WriterStays(s, s', s.writers[u]);
    }
  }

  lemma OutletShape<T>(s: System<T>, a: Action<T>)
    requires Shape(s) && (a.Connect? || a.Disconnect? || a.DisconnectAll? || a.ResetOutlet?)
    ensures Shape(OutletStep(s, a)) && SameWiring(s, OutletStep(s, a))
  {
    var s' := OutletStep(s, a);
    WritersStay(s, s');
    if a.Disconnect? && a.o < |s.outlets| {
      WithoutKeepsRest(s.outlets[a.o].targets, a.i);
      var now := s'.outlets[a.o].targets;
      forall k | 0 <= k < |now| ensures now[k] < |s.inlets| {
        assert now[k] in now;
      }
    }
  }

  lemma InletShape<T>(s: System<T>, a: Action<T>)
    requires Shape(s) && (a.ResetInlet? || a.Read?)
    ensures Shape(InletStep(s, a)) && SameWiring(s, InletStep(s, a))
  {
    if a.i < |s.inlets| {
    }
    WritersStay(s, InletStep(s, a));
  }

  lemma VisitShape<T>(s: System<T>, r: nat, i: nat, all: bool)
    requires Shape(s) && CanVisit(s, r, i)
    ensures Shape(VisitStep(s, r, i, all)) && SameWiring(s, VisitStep(s, r, i, all))
  {
    WritersStay(s, VisitStep(s, r, i, all));
  }

  lemma ReaderShape<T>(s: System<T>, a: Action<T>)
    requires Shape(s) && (a.EndPass? || a.Wake?)
    ensures Shape(ReaderStep(s, a)) && SameWiring(s, ReaderStep(s, a))
  {
    WritersStay(s, ReaderStep(s, a));
  }

  lemma ShapeStep<T>(s: System<T>, a: Action<T>)
    requires Shape(s)
    ensures Shape(Next(s, a)) && SameWiring(s, Next(s, a))
  {
    hide Shape, BeginStep, DeliverStep, NotifyStep, VisitStep, OutletStep, InletStep, ReaderStep;
    match a
    case BeginWrite(t, o, v, owned) => if CanBegin(s, t, o) { BeginShape(s, t, o, v, owned); }
    case Deliver(t) => if CanDeliver(s, t) { DeliverShape(s, t); }
    case Notify(t) => if CanNotify(s, t) { NotifyShape(s, t); }
    case Visit(r, i, all) => if CanVisit(s, r, i) { VisitShape(s, r, i, all); }
    case Connect(_, _) => OutletShape(s, a);
    case Disconnect(_, _) => OutletShape(s, a);
    case DisconnectAll(_) => OutletShape(s, a);
    case ResetOutlet(_) => OutletShape(s, a);
    case ResetInlet(_) => InletShape(s, a);
    case Read(_, _) => InletShape(s, a);
    case EndPass(_, _) => ReaderShape(s, a);
    case Wake(_, _) => ReaderShape(s, a);
  }

  // ----- The log of arrivals -----

  ghost predicate Served<T>(w: Write<T>, i: nat) {
    exists k :: 0 <= k < w.pos <= |w.targets| && w.targets[k] == i
  }

  ghost predicate HasStamp<T>(log: seq<Item<T>>, t: nat, n: nat) {
    exists k :: 0 <= k < |log| && log[k].writer == t && log[k].n == n
  }

  /** The item at position `k` of an input's log stands for a write that has served that input, and
      carries the very value written. */
  ghost predicate Genuine<T>(s: System<T>, i: nat, item: Item<T>, k: nat) {
    && item.at == k
    && item.writer < |s.writers| && item.n < |s.writers[item.writer]|
    && Served(s.writers[item.writer][item.n], i)
    && item.payload == Some(s.writers[item.writer][item.n].value)
  }

  /** What came from one writer is in that writer's program order. */
  ghost predicate Ordered<T>(log: seq<Item<T>>) {
    forall a, b | 0 <= a < b < |log| && log[a].writer == log[b].writer :: log[a].n < log[b].n
  }

  ghost predicate InletLogged<T>(s: System<T>, i: nat)
    requires i < |s.inlets|
  {
    && (forall k | 0 <= k < |s.inlets[i].arrivals| :: Genuine(s, i, s.inlets[i].arrivals[k], k))
    && Ordered(s.inlets[i].arrivals)
  }

  ghost predicate WriteLogged<T>(s: System<T>, t: nat, n: nat)
    requires t < |s.writers| && n < |s.writers[t]|
  {
    var w := s.writers[t][n];
    forall k | 0 <= k < w.pos && k < |w.targets| ::
      w.targets[k] < |s.inlets| && HasStamp(s.inlets[w.targets[k]].arrivals, t, n)
  }

  ghost predicate Logged<T>(s: System<T>) {
    && (forall i | 0 <= i < |s.inlets| :: InletLogged(s, i))
    && (forall t, n | 0 <= t < |s.writers| && 0 <= n < |s.writers[t]| :: WriteLogged(s, t, n))
  }

  /** Histories only grow: a write keeps its value and its snapshot, and logs keep their prefix. */
  ghost predicate Grows<T>(s: System<T>, s': System<T>) {
    && SameWiring(s, s')
    && (forall t | 0 <= t < |s.writers| :: |s.writers[t]| <= |s'.writers[t]|)
    && (forall t, n | 0 <= t < |s.writers| && 0 <= n < |s.writers[t]| :: WriteGrows(s.writers[t][n], s'.writers[t][n]))
    && (forall i | 0 <= i < |s.inlets| :: s.inlets[i].arrivals <= s'.inlets[i].arrivals)
  }

  ghost predicate WriteGrows<T>(w: Write<T>, w': Write<T>) {
    w'.output == w.output && w'.value == w.value && w'.targets == w.targets && w.pos <= w'.pos
  }

  /** Nothing is delivered between the two states; a write begun in between has served nobody. */
  ghost predicate Quiet<T>(s: System<T>, s': System<T>) {
    && Grows(s, s')
    && (forall i | 0 <= i < |s.inlets| :: s'.inlets[i].arrivals == s.inlets[i].arrivals)
    && (forall t, n | 0 <= t < |s'.writers| && 0 <= n < |s'.writers[t]| ::
          s'.writers[t][n].pos == if n < |s.writers[t]| then s.writers[t][n].pos else 0)
  }

  lemma WriterQuiet<T>(s: System<T>, a: Action<T>)
    requires (a.BeginWrite? && CanBegin(s, a.t, a.o)) || (a.Notify? && CanNotify(s, a.t))
    ensures Quiet(s, Next(s, a))
  {}

  /** Reading touches no writer and no log. */
  ghost predicate OnlyReads<T>(s: System<T>, s': System<T>) {
    && s'.writers == s.writers && s'.outlets == s.outlets
    && |s'.inlets| == |s.inlets| && |s'.readers| == |s.readers|
    && forall i | 0 <= i < |s.inlets| :: SameLog(s.inlets[i], s'.inlets[i])
  }

  lemma ReaderOnlyReads<T>(s: System<T>, a: Action<T>)
    requires a.Visit? || a.EndPass? || a.Wake? || a.Read? || a.ResetInlet?
    ensures OnlyReads(s, Next(s, a))
  {}

  lemma OnlyReadsQuiet<T>(s: System<T>, s': System<T>)
    requires OnlyReads(s, s')
    ensures Quiet(s, s')
  {}

  lemma QuietStep<T>(s: System<T>, a: Action<T>)
    requires !(a.Deliver? && CanDeliver(s, a.t))
    ensures Quiet(s, Next(s, a))
  {
    if (a.BeginWrite? && CanBegin(s, a.t, a.o)) || (a.Notify? && CanNotify(s, a.t)) {
      WriterQuiet(s, a);
    } else if a.Visit? || a.EndPass? || a.Wake? || a.Read? || a.ResetInlet? {
      ReaderOnlyReads(s, a);
      OnlyReadsQuiet(s, Next(s, a));
    }
  }

  lemma DeliverGrows<T>(s: System<T>, t: nat)
    requires CanDeliver(s, t)
    ensures Grows(s, DeliverStep(s, t))
  {}

  lemma GrowsStep<T>(s: System<T>, a: Action<T>)
    ensures Grows(s, Next(s, a))
  {
    if a.Deliver? && CanDeliver(s, a.t) {
      DeliverGrows(s, a.t);
    } else {
      QuietStep(s, a);
    }
  }

  /** Everything logged stays logged as the histories grow. */
  lemma KeepsLogged<T>(s: System<T>, s': System<T>)
    requires Shape(s) && Shape(s') && Logged(s) && Grows(s, s')
    ensures forall i, k | 0 <= i < |s.inlets| && 0 <= k < |s.inlets[i].arrivals| ::
              Genuine(s', i, s'.inlets[i].arrivals[k], k)
    ensures forall i, t, n | 0 <= i < |s.inlets| && HasStamp(s.inlets[i].arrivals, t, n) ::
              HasStamp(s'.inlets[i].arrivals, t, n)
  {
    forall i, k | 0 <= i < |s.inlets| && 0 <= k < |s.inlets[i].arrivals|
      ensures Genuine(s', i, s'.inlets[i].arrivals[k], k)
    {
      var item := s.inlets[i].arrivals[k];
      assert InletLogged(s, i);
      assert Genuine(s, i, item, k);
      assert s'.inlets[i].arrivals[k] == item;
      assert WriterOk(s', s'.writers[item.writer]);
      assert WriteGrows(s.writers[item.writer][item.n], s'.writers[item.writer][item.n]);
    }
    forall i, t, n | 0 <= i < |s.inlets| && HasStamp(s.inlets[i].arrivals, t, n)
      ensures HasStamp(s'.inlets[i].arrivals, t, n)
    {
      var k :| 0 <= k < |s.inlets[i].arrivals| && s.inlets[i].arrivals[k].writer == t && s.inlets[i].arrivals[k].n == n;
      assert s'.inlets[i].arrivals[k] == s.inlets[i].arrivals[k];
    }
  }

  /** The new arrival is later in its writer's order than everything that writer sent here before:
      an equal number would be the same write serving a duplicate of its snapshot. */
  lemma DeliverOrdered<T>(s: System<T>, t: nat)
    requires Shape(s) && Logged(s) && CanDeliver(s, t)
    ensures var i := Current(s.writers[t]).targets[Current(s.writers[t]).pos];
            Ordered(s.inlets[i].arrivals + [Carried(s, t)])
  {
    var w := Current(s.writers[t]);
    var i := w.targets[w.pos];
    var log := s.inlets[i].arrivals;
    assert WriterOk(s, s.writers[t]);
    assert InletLogged(s, i);
    assert !Served(w, i) by {
      forall k | 0 <= k < w.pos ensures w.targets[k] != i {}
    }
    forall a | 0 <= a < |log| && log[a].writer == t ensures log[a].n < |s.writers[t]| - 1 {
      assert Genuine(s, i, log[a], a);
    }
  }

  lemma DeliverLogged<T>(s: System<T>, t: nat)
    requires Shape(s) && Logged(s) && CanDeliver(s, t)
    ensures Logged(DeliverStep(s, t))
  {
    var s' := DeliverStep(s, t);
    DeliverShape(s, t);
    DeliverGrows(s, t);
    KeepsLogged(s, s');
    DeliverOrdered(s, t);
    var last := |s.writers[t]| - 1;
    var w, w' := s.writers[t][last], s'.writers[t][last];
    var i := w.targets[w.pos];
    assert WriterOk(s, s.writers[t]) && WriteOk(s, w);
    assert w'.targets[w.pos] == i && Served(w', i);
    assert s'.inlets[i].arrivals[|s.inlets[i].arrivals|] == Carried(s, t);
    assert HasStamp(s'.inlets[i].arrivals, t, last);
    forall j | 0 <= j < |s'.inlets| ensures InletLogged(s', j) {
      assert InletLogged(s, j);
      assert j != i ==> s'.inlets[j] == s.inlets[j];
    }
    forall u, n | 0 <= u < |s'.writers| && 0 <= n < |s'.writers[u]| ensures WriteLogged(s', u, n) {
      assert WriteLogged(s, u, n);
    }
  }

  lemma QuietLogged<T>(s: System<T>, s': System<T>)
    requires Shape(s) && Shape(s') && Logged(s) && Quiet(s, s')
    ensures Logged(s')
  {
    KeepsLogged(s, s');
    forall i | 0 <= i < |s'.inlets| ensures InletLogged(s', i) {
      assert InletLogged(s, i);
    }
    forall t, n | 0 <= t < |s'.writers| && 0 <= n < |s'.writers[t]| ensures WriteLogged(s', t, n) {
      if n < |s.writers[t]| {
        assert WriteLogged(s, t, n);
        assert WriteGrows(s.writers[t][n], s'.writers[t][n]);
      }
    }
  }

  lemma LoggedStep<T>(s: System<T>, a: Action<T>)
    requires Shape(s) && Logged(s)
    ensures Logged(Next(s, a))
  {
    if a.Deliver? && CanDeliver(s, a.t) {
      DeliverLogged(s, a.t);
    } else {
      ShapeStep(s, a);
      QuietStep(s, a);
      QuietLogged(s, Next(s, a));
    }
  }

  // ----- What the reader gets -----

  /** Everything handed out, followed by everything pending, is a subsequence of the arrivals: each
      value sits at the log position it carries, and the positions ascend. */
  ghost predicate InLogOrder<T>(inlet: Inlet<T>, seen: seq<Item<T>>) {
    && (forall k | 0 <= k < |seen| :: seen[k].at < |inlet.arrivals| && inlet.arrivals[seen[k].at] == seen[k])
    && (forall a, b | 0 <= a < b < |seen| :: seen[a].at < seen[b].at)
  }

  ghost predicate InletSeen<T>(inlet: Inlet<T>) {
    InLogOrder(inlet, inlet.handed + Pending(inlet.port))
  }

  lemma DropMiddle<T>(inlet: Inlet<T>, front: seq<Item<T>>, back: seq<Item<T>>)
    requires back != [] && InLogOrder(inlet, front + back)
    ensures InLogOrder(inlet, front + back[1..])
  {
    var all, left := front + back, front + back[1..];
    assert forall k | 0 <= k < |front| :: left[k] == all[k];
    assert forall k | |front| <= k < |left| :: left[k] == all[k + 1];
  }

  lemma AppendLatest<T>(inlet: Inlet<T>, seen: seq<Item<T>>, item: Item<T>)
    requires InLogOrder(inlet, seen) && item.at == |inlet.arrivals|
    ensures InLogOrder(Receive(inlet, item), seen) && InLogOrder(Receive(inlet, item), seen + [item])
  {
    var arrivals := inlet.arrivals + [item];
    assert arrivals[item.at] == item;
    assert forall k | 0 <= k < |seen| :: arrivals[seen[k].at] == inlet.arrivals[seen[k].at];
  }

  lemma ReceiveSeen<T>(readers: nat, inlet: Inlet<T>, item: Item<T>)
    requires InletOk(readers, inlet) && InletSeen(inlet) && item.at == |inlet.arrivals|
    ensures InletSeen(Receive(inlet, item))
  {
    var h, p := inlet.handed, Pending(inlet.port);
    AcceptPending(inlet.port, item);
    if !Full(inlet.port) {
      AppendLatest(inlet, h + p, item);
      assert h + p + [item] == h + (p + [item]);
    } else if Refuses(inlet.port.kind) {
      AppendLatest(inlet, h + p, item);
    } else {
      DropMiddle(inlet, h, p);
      AppendLatest(inlet, h + p[1..], item);
      assert h + p[1..] + [item] == h + (p[1..] + [item]);
    }
  }

  lemma ReadSeen<T>(inlet: Inlet<T>, all: bool)
    requires InletSeen(inlet)
    ensures InletSeen(ReadInlet(inlet, all)) && InletSeen(Clear(inlet))
  {
    var now := ReadInlet(inlet, all);
    assert now.handed + Pending(now.port) == inlet.handed + Pending(inlet.port);
    var cleared := Clear(inlet);
    assert cleared.handed + Pending(cleared.port) == (inlet.handed + Pending(inlet.port))[..|inlet.handed|];
  }

  ghost predicate AllSeen<T>(s: System<T>) {
    forall i | 0 <= i < |s.inlets| :: InletSeen(s.inlets[i])
  }

  lemma DeliverSeen<T>(s: System<T>, t: nat)
    requires Shape(s) && AllSeen(s) && CanDeliver(s, t)
    ensures AllSeen(DeliverStep(s, t))
  {
    var w := Current(s.writers[t]);
    ReceiveSeen(|s.readers|, s.inlets[w.targets[w.pos]], Carried(s, t));
  }

  lemma ReaderSeen<T>(s: System<T>, a: Action<T>)
    requires AllSeen(s) && (a.Visit? || a.Read? || a.ResetInlet?)
    ensures AllSeen(Next(s, a))
  {
    hide InletSeen, ReadInlet, Clear;
    if a.i < |s.inlets| {
      ReadSeen(s.inlets[a.i], !a.ResetInlet? && a.all);
    }
  }

  lemma SeenStep<T>(s: System<T>, a: Action<T>)
    requires Shape(s) && AllSeen(s)
    ensures AllSeen(Next(s, a))
  {
    if a.Deliver? && CanDeliver(s, a.t) {
      DeliverSeen(s, a.t);
    } else if a.Visit? || a.Read? || a.ResetInlet? {
      ReaderSeen(s, a);
    }
  }

  // ----- Wake-ups -----

  /** Writer `t` has stored into input `i` and has not fired its notifier yet. */
  ghost predicate Owes<T>(s: System<T>, t: nat, i: nat) {
    && t < |s.writers| && s.writers[t] != []
    && var w := Current(s.writers[t]);
       w.owing && 0 < w.pos <= |w.targets| && w.targets[w.pos - 1] == i
  }

  ghost predicate Comes<T>(s: System<T>, i: nat) {
    exists t: nat :: Owes(s, t, i)
  }

  /** A value waiting in a notified input is about to be looked for: its reader's pass still has this
      input ahead or will be followed by another pass, or the signal is up, or a writer is between
      its store and its notification. */
  ghost predicate Watchful<T>(s: System<T>, i: nat)
    requires i < |s.inlets|
  {
    var inlet := s.inlets[i];
    inlet.signal.Some? && inlet.signal.value < |s.readers| && Pending(inlet.port) != [] ==>
      var reader := s.readers[inlet.signal.value];
      || reader.signaled
      || (reader.phase.Pass? && (i in reader.phase.todo || reader.phase.busy))
      || Comes(s, i)
  }

  ghost predicate Awake<T>(s: System<T>) {
    forall i | 0 <= i < |s.inlets| :: Watchful(s, i)
  }

  lemma DeliverAwake<T>(s: System<T>, t: nat)
    requires Shape(s) && Awake(s) && CanDeliver(s, t)
    ensures Awake(DeliverStep(s, t))
  {
    var s' := DeliverStep(s, t);
    var w := Current(s.writers[t]);
    var i := w.targets[w.pos];
    forall j | 0 <= j < |s'.inlets| ensures Watchful(s', j) {
      assert Watchful(s, j);
      if j == i {
        if s.inlets[i].signal.Some? {
          assert Owes(s', t, i);
        }
      } else if Comes(s, j) {
        var u :| Owes(s, u, j);
        assert Owes(s', u, j);
      }
    }
  }

  lemma NotifyAwake<T>(s: System<T>, t: nat)
    requires Shape(s) && Awake(s) && CanNotify(s, t)
    ensures Awake(NotifyStep(s, t))
  {
    var s' := NotifyStep(s, t);
    forall j | 0 <= j < |s'.inlets| ensures Watchful(s', j) {
      assert Watchful(s, j);
      if Comes(s, j) {
        var u :| Owes(s, u, j);
        if u != t {
          assert Owes(s', u, j);
        }
      }
    }
  }

  lemma BeginAwake<T>(s: System<T>, t: nat, o: nat, v: T, owned: bool)
    requires Shape(s) && Awake(s) && CanBegin(s, t, o)
    ensures Awake(BeginStep(s, t, o, v, owned))
  {
    var s' := BeginStep(s, t, o, v, owned);
    forall j | 0 <= j < |s'.inlets| ensures Watchful(s', j) {
      assert Watchful(s, j);
      if Comes(s, j) {
        var u :| Owes(s, u, j);
        assert Owes(s', u, j);
      }
    }
  }

  /** A promise by a writer stands while the writers do. */
  lemma StillComes<T>(s: System<T>, s': System<T>, i: nat)
    requires s'.writers == s.writers
    ensures Comes(s, i) ==> Comes(s', i)
  {
    if Comes(s, i) {
      var u :| Owes(s, u, i);
      assert Owes(s', u, i);
    }
  }

  lemma VisitAwake<T>(s: System<T>, r: nat, i: nat, all: bool)
    requires Awake(s) && CanVisit(s, r, i)
    ensures Awake(VisitStep(s, r, i, all))
  {
    var s' := VisitStep(s, r, i, all);
    forall j | 0 <= j < |s'.inlets| ensures Watchful(s', j) {
      assert Watchful(s, j);
      StillComes(s, s', j);
    }
  }

  lemma InletAwake<T>(s: System<T>, a: Action<T>)
    requires Awake(s) && (a.Read? || a.ResetInlet?)
    ensures Awake(InletStep(s, a))
  {
    var s' := InletStep(s, a);
    forall j | 0 <= j < |s'.inlets| ensures Watchful(s', j) {
      assert Watchful(s, j);
      StillComes(s, s', j);
    }
  }

  lemma ReaderAwake<T>(s: System<T>, a: Action<T>)
    requires Awake(s) && (a.EndPass? || a.Wake?)
    ensures Awake(ReaderStep(s, a))
  {
    var s' := ReaderStep(s, a);
    forall j | 0 <= j < |s'.inlets| ensures Watchful(s', j) {
      assert Watchful(s, j);
      StillComes(s, s', j);
    }
  }

  lemma OutletAwake<T>(s: System<T>, a: Action<T>)
    requires Awake(s) && (a.Connect? || a.Disconnect? || a.DisconnectAll? || a.ResetOutlet?)
    ensures Awake(OutletStep(s, a))
  {
    var s' := OutletStep(s, a);
    forall j | 0 <= j < |s'.inlets| ensures Watchful(s', j) {
      assert Watchful(s, j);
      StillComes(s, s', j);
    }
  }

  lemma AwakeStep<T>(s: System<T>, a: Action<T>)
    requires Shape(s) && Awake(s)
    ensures Awake(Next(s, a))
  {
    match a
    case Deliver(t) => if CanDeliver(s, t) { DeliverAwake(s, t); }
    case Notify(t) => if CanNotify(s, t) { NotifyAwake(s, t); }
    case BeginWrite(t, o, v, owned) => if CanBegin(s, t, o) { BeginAwake(s, t, o, v, owned); }
    case Connect(_, _) => OutletAwake(s, a);
    case Disconnect(_, _) => OutletAwake(s, a);
    case DisconnectAll(_) => OutletAwake(s, a);
    case ResetOutlet(_) => OutletAwake(s, a);
    case Visit(r, i, all) => if CanVisit(s, r, i) { VisitAwake(s, r, i, all); }
    case ResetInlet(_) => InletAwake(s, a);
    case Read(_, _) => InletAwake(s, a);
    case EndPass(_, _) => ReaderAwake(s, a);
    case Wake(_, _) => ReaderAwake(s, a);
  }

  // ----- The writes of an output -----

  /** The writes begun on output `o`, by any writer. */
  ghost function Begun<T>(s: System<T>, o: nat): set<(nat, nat)> {
    set t, n | 0 <= t < |s.writers| && 0 <= n < |s.writers[t]| && s.writers[t][n].output == o :: (t, n)
  }

  ghost predicate Tallied<T>(s: System<T>) {
    forall o | 0 <= o < |s.outlets| :: s.outlets[o].issued == |Begun(s, o)|
  }

  lemma BegunBy<T>(s: System<T>, t: nat, o: nat, v: T, owned: bool, p: nat)
    requires CanBegin(s, t, o)
    ensures (t, |s.writers[t]|) !in Begun(s, p)
    ensures var now := if p == o then {(t, |s.writers[t]|)} else {};
            Begun(BeginStep(s, t, o, v, owned), p) == Begun(s, p) + now
  {
    var s' := BeginStep(s, t, o, v, owned);
    forall u, n | 0 <= u < |s.writers| && 0 <= n < |s.writers[u]|
      ensures n < |s'.writers[u]| && s'.writers[u][n] == s.writers[u][n]
    {}
    var now: set<(nat, nat)> := if p == o then {(t, |s.writers[t]|)} else {};
    forall x | x in Begun(s', p) ensures x in Begun(s, p) + now {}
    forall x | x in Begun(s, p) + now ensures x in Begun(s', p) {}
  }

  lemma BeginTallied<T>(s: System<T>, t: nat, o: nat, v: T, owned: bool)
    requires Tallied(s) && CanBegin(s, t, o)
    ensures Tallied(BeginStep(s, t, o, v, owned))
  {
    hide Begun;
    var s' := BeginStep(s, t, o, v, owned);
    forall p | 0 <= p < |s'.outlets| ensures s'.outlets[p].issued == |Begun(s', p)| {
      BegunBy(s, t, o, v, owned, p);
    }
  }

  /** Only beginning a write adds to what has begun. */
  lemma BegunStays<T>(s: System<T>, a: Action<T>, o: nat)
    requires !(a.BeginWrite? && CanBegin(s, a.t, a.o))
    ensures Begun(Next(s, a), o) == Begun(s, o)
  {
    var s' := Next(s, a);
    assert |s'.writers| == |s.writers|;
    forall t, n | 0 <= t < |s.writers| && 0 <= n < |s.writers[t]|
      ensures |s'.writers[t]| == |s.writers[t]| && s'.writers[t][n].output == s.writers[t][n].output
    {}
    forall t | 0 <= t < |s.writers| ensures |s'.writers[t]| == |s.writers[t]| {}
  }

  lemma TalliedStep<T>(s: System<T>, a: Action<T>)
    requires Tallied(s)
    ensures Tallied(Next(s, a))
  {
    if a.BeginWrite? && CanBegin(s, a.t, a.o) {
      BeginTallied(s, a.t, a.o, a.v, a.owned);
    } else {
      forall o | 0 <= o < |Next(s, a).outlets| ensures Next(s, a).outlets[o].issued == |Begun(Next(s, a), o)| {
        BegunStays(s, a, o);
      }
    }
  }

  // ----- What a pass still has ahead -----

  /** Every pass under way has only inputs of the system ahead of it. */
  ghost predicate Passing<T>(s: System<T>) {
    forall r, i | 0 <= r < |s.readers| && s.readers[r].phase.Pass? && i in s.readers[r].phase.todo :: i < |s.inlets|
  }

  lemma PassingStep<T>(s: System<T>, a: Action<T>)
    requires Passing(s) && SameWiring(s, Next(s, a))
    ensures Passing(Next(s, a))
  {
    var s' := Next(s, a);
    forall r, i | 0 <= r < |s'.readers| && s'.readers[r].phase.Pass? && i in s'.readers[r].phase.todo
      ensures i < |s'.inlets|
    {
      assert i in Watched(s, r) || (s.readers[r].phase.Pass? && i in s.readers[r].phase.todo);
    }
  }

  // ----- Every reachable state -----

  ghost predicate Invariant<T>(s: System<T>) {
    Shape(s) && Logged(s) && AllSeen(s) && Awake(s) && Tallied(s) && Passing(s)
  }

  lemma InitialInvariant<T>(s: System<T>)
    requires Initial(s)
    ensures Invariant(s)
  {
    forall i | 0 <= i < |s.inlets|
      ensures InletOk(|s.readers|, s.inlets[i]) && InletSeen(s.inlets[i]) && Watchful(s, i)
    {}
    forall o | 0 <= o < |s.outlets| ensures s.outlets[o].issued == |Begun(s, o)| {
      assert Begun(s, o) == {};
    }
  }

  lemma StepInvariant<T>(s: System<T>, a: Action<T>)
    requires Invariant(s)
    ensures Invariant(Next(s, a))
  {
    ShapeStep(s, a);
    LoggedStep(s, a);
    SeenStep(s, a);
    AwakeStep(s, a);
    TalliedStep(s, a);
    PassingStep(s, a);
  }

  lemma {:induction false} RunInvariant<T>(s: System<T>, actions: seq<Action<T>>)
    requires Invariant(s)
    ensures Invariant(Run(s, actions)) && Grows(s, Run(s, actions))
  {
    if actions != [] {
      var n := |actions| - 1;
      RunInvariant(s, actions[..n]);
      StepInvariant(Run(s, actions[..n]), actions[n]);
      GrowsStep(Run(s, actions[..n]), actions[n]);
      GrowsTransitive(s, Run(s, actions[..n]), Run(s, actions));
    }
  }

  lemma GrowsTransitive<T>(a: System<T>, b: System<T>, c: System<T>)
    requires Grows(a, b) && Grows(b, c)
    ensures Grows(a, c)
  {
    forall t, n | 0 <= t < |a.writers| && 0 <= n < |a.writers[t]| ensures WriteGrows(a.writers[t][n], c.writers[t][n]) {
      assert WriteGrows(a.writers[t][n], b.writers[t][n]);
      assert WriteGrows(b.writers[t][n], c.writers[t][n]);
    }
    forall i | 0 <= i < |a.inlets| ensures a.inlets[i].arrivals <= c.inlets[i].arrivals {}
  }
}
