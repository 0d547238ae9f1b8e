/** The delivery protocol as a state machine over its atomic steps.

    Any number of writer threads write to any number of outputs. A write takes the output's lock
    only to snapshot the subscriber list and count itself; each delivery to one input is an atomic
    step under that input's own mutex, followed by a separate step that fires the input's notifier.
    Connections change, readers read and counters are reset between any two of those steps.

    Beside the real state run ghost logs: what arrived at each input and what its reader was handed.
    A value travels with the identity of its write - writer thread and number in that thread's
    program order - and with its position in the log of the input it reached. */
module Delivery {
  import opened Common
  import opened PortSpec

  datatype Item<T> = Item(writer: nat, n: nat, at: nat, payload: Option<T>)

  /** One write: `pos` subscribers of the snapshot have been served; `owing` says the writer stands
      between its last store and the notification that goes with it. */
  datatype Write<T> = Write(
    output: nat,
    value: T,
    owned: bool,
    intact: bool,
    targets: seq<nat>,
    pos: nat,
    owing: bool)

  /** How much had arrived and been handed out when the input was last reset stays on record. */
  datatype Inlet<T> = Inlet(
    port: Port<Item<T>>,
    arrivals: seq<Item<T>>,
    handed: seq<Item<T>>,
    resetAt: nat,
    handedAt: nat,
    signal: Option<nat>)

  /** `writes` is the counter; `issued` counts every write ever begun, `resetAt` those before the last reset. */
  datatype Outlet = Outlet(targets: seq<nat>, writes: nat, issued: nat, resetAt: nat)

  /** An on-demand thread either runs a pass over its inputs or waits for its signal. */
  datatype Phase = Pass(todo: set<nat>, busy: bool) | Waiting

  datatype Reader = Reader(signaled: bool, phase: Phase)

  datatype System<T> = System(
    outlets: seq<Outlet>,
    inlets: seq<Inlet<T>>,
    writers: seq<seq<Write<T>>>,
    readers: seq<Reader>)

  datatype Action<T> =
    | BeginWrite(t: nat, o: nat, v: T, owned: bool)
    | Deliver(t: nat)
    | Notify(t: nat)
    | Connect(o: nat, i: nat)
    | Disconnect(o: nat, i: nat)
    | DisconnectAll(o: nat)
    | ResetOutlet(o: nat)
    | ResetInlet(i: nat)
    | Read(i: nat, all: bool)
    | Visit(r: nat, i: nat, all: bool)
    | EndPass(r: nat, sleep: bool)
    | Wake(r: nat, timeout: bool)

  // ----- Steps -----

  predicate Done<T>(w: Write<T>) {
    w.pos == |w.targets| && !w.owing
  }

  /** A thread starts its next write only when its previous one has returned. */
  predicate Idle<T>(ws: seq<Write<T>>) {
    ws == [] || Done(ws[|ws| - 1])
  }

  function Current<T>(ws: seq<Write<T>>): Write<T>
    requires ws != []
  {
    ws[|ws| - 1]
  }

  function Watched<T>(s: System<T>, r: nat): set<nat> {
    set i | 0 <= i < |s.inlets| && s.inlets[i].signal == Some(r)
  }

  function BeginStep<T>(s: System<T>, t: nat, o: nat, v: T, owned: bool): System<T>
    requires CanBegin(s, t, o)
  {
    var out := s.outlets[o];
    s.(outlets := s.outlets[o := out.(writes := Tick(out.writes), issued := out.issued + 1)],
       writers := s.writers[t := s.writers[t] + [Write(o, v, owned, true, out.targets, 0, false)]])
  }

  predicate CanDeliver<T>(s: System<T>, t: nat) {
    && t < |s.writers| && s.writers[t] != []
    && var w := Current(s.writers[t]);
       w.pos < |w.targets| && !w.owing && w.targets[w.pos] < |s.inlets|
  }

  /** What the store of one delivery reads out of the writer's object. */
  function Carried<T>(s: System<T>, t: nat): Item<T>
    requires CanDeliver(s, t)
  {
    var w := Current(s.writers[t]);
    Item(t, |s.writers[t]| - 1, |s.inlets[w.targets[w.pos]].arrivals|,
         if w.intact then Some(w.value) else None)
  }

  function Receive<T>(inlet: Inlet<T>, item: Item<T>): Inlet<T> {
    inlet.(port := Accept(inlet.port, item), arrivals := inlet.arrivals + [item])
  }

  /** What reading and resetting leave alone. */
  ghost predicate SameLog<T>(inlet: Inlet<T>, r: Inlet<T>) {
    r.arrivals == inlet.arrivals && r.signal == inlet.signal && r.port.kind == inlet.port.kind
  }

  function Clear<T>(inlet: Inlet<T>): (r: Inlet<T>)
    ensures SameLog(inlet, r)
  {
    inlet.(port := Reset(inlet.port), resetAt := |inlet.arrivals|, handedAt := |inlet.handed|)
  }

  function DeliverStep<T>(s: System<T>, t: nat): System<T>
    requires CanDeliver(s, t)
  {
    var w := Current(s.writers[t]);
    var i := w.targets[w.pos];
    var inlet := s.inlets[i];
    var item := Carried(s, t);
    var served := w.(pos := w.pos + 1,
                     owing := inlet.signal.Some?,
                     intact := w.intact && !(w.owned && w.pos + 1 == |w.targets|));
    s.(inlets := s.inlets[i := Receive(inlet, item)],
       writers := s.writers[t := s.writers[t][|s.writers[t]| - 1 := served]])
  }

  predicate CanNotify<T>(s: System<T>, t: nat) {
    && t < |s.writers| && s.writers[t] != []
    && var w := Current(s.writers[t]);
       && w.owing && 0 < w.pos <= |w.targets| && w.targets[w.pos - 1] < |s.inlets|
       && s.inlets[w.targets[w.pos - 1]].signal.Some?
       && s.inlets[w.targets[w.pos - 1]].signal.value < |s.readers|
  }

  function NotifyStep<T>(s: System<T>, t: nat): System<T>
    requires CanNotify(s, t)
  {
    var w := Current(s.writers[t]);
    var r := s.inlets[w.targets[w.pos - 1]].signal.value;
    s.(writers := s.writers[t := s.writers[t][|s.writers[t]| - 1 := w.(owing := false)]],
       readers := s.readers[r := s.readers[r].(signaled := true)])
  }

  function ReadInlet<T>(inlet: Inlet<T>, all: bool): (r: Inlet<T>)
    ensures SameLog(inlet, r)
  {
    if all then
      var (p, out) := Drain(inlet.port);
      inlet.(port := p, handed := inlet.handed + out)
    else
      var (p, out) := Take(inlet.port);
      inlet.(port := p, handed := inlet.handed + (if out.Some? then [out.value] else []))
  }

  predicate CanVisit<T>(s: System<T>, r: nat, i: nat) {
    && r < |s.readers| && i < |s.inlets|
    && s.readers[r].phase.Pass? && i in s.readers[r].phase.todo
  }

  /** A pass looks at one input: it takes one value or drains them all, and remembers having found
      something. */
  function VisitStep<T>(s: System<T>, r: nat, i: nat, all: bool): System<T>
    requires CanVisit(s, r, i)
  {
    var phase := s.readers[r].phase;
    var found := Pending(s.inlets[i].port) != [];
    s.(inlets := s.inlets[i := ReadInlet(s.inlets[i], all)],
       readers := s.readers[r := s.readers[r].(phase := Pass(phase.todo - {i}, phase.busy || found))])
  }

  /** Changes of an output's subscriber list, each a swap of the whole list, and of its counter.
      Connect refuses an input already connected. */
  function OutletStep<T>(s: System<T>, a: Action<T>): (s': System<T>)
    requires a.Connect? || a.Disconnect? || a.DisconnectAll? || a.ResetOutlet?
    ensures s' == s.(outlets := s'.outlets) && |s'.outlets| == |s.outlets|
  {
    if a.o >= |s.outlets| then s
    else
      var out := s.outlets[a.o];
      var next :=
        match a
        case Connect(o, i) =>
          if i < |s.inlets| && i !in out.targets then out.(targets := out.targets + [i]) else out
        case Disconnect(o, i) => out.(targets := Without(out.targets, i))
        case DisconnectAll(o) => out.(targets := [])
        case ResetOutlet(o) => out.(writes := 0, resetAt := out.issued);
      s.(outlets := s.outlets[a.o := next])
  }

  /** Reading and resetting one input. */
  function InletStep<T>(s: System<T>, a: Action<T>): (s': System<T>)
    requires a.ResetInlet? || a.Read?
    ensures s' == s.(inlets := s'.inlets) && |s'.inlets| == |s.inlets|
  {
    if a.i >= |s.inlets| then s
    else s.(inlets := s.inlets[a.i := if a.Read? then ReadInlet(s.inlets[a.i], a.all) else Clear(s.inlets[a.i])])
  }

  /** The end of a pass and the end of a wait. A thread sleeps only after a pass that found nothing;
      waking, by the signal or by the time-out, takes the signal down and starts a pass. */
  function ReaderStep<T>(s: System<T>, a: Action<T>): (s': System<T>)
    requires a.EndPass? || a.Wake?
    ensures s' == s.(readers := s'.readers) && |s'.readers| == |s.readers|
  {
    if a.r >= |s.readers| then s
    else
      var reader := s.readers[a.r];
      var again := Pass(Watched(s, a.r), false);
      var next :=
        match a
        case EndPass(r, sleep) =>
          if reader.phase.Pass? && reader.phase.todo == {}
          then reader.(phase := if sleep && !reader.phase.busy then Waiting else again)
          else reader
        case Wake(r, timeout) =>
          if reader.phase.Waiting? && (timeout || reader.signaled) then Reader(false, again) else reader;
      s.(readers := s.readers[a.r := next])
  }

  predicate CanBegin<T>(s: System<T>, t: nat, o: nat) {
    t < |s.writers| && o < |s.outlets| && Idle(s.writers[t])
  }

  /** One atomic step; an action that is not enabled leaves the system as it is. */
  function Next<T>(s: System<T>, a: Action<T>): (s': System<T>) {
    match a
    case BeginWrite(t, o, v, owned) => if CanBegin(s, t, o) then BeginStep(s, t, o, v, owned) else s
    case Deliver(t) => if CanDeliver(s, t) then DeliverStep(s, t) else s
    case Notify(t) => if CanNotify(s, t) then NotifyStep(s, t) else s
    case Visit(r, i, all) => if CanVisit(s, r, i) then VisitStep(s, r, i, all) else s
    case Connect(_, _) => OutletStep(s, a)
    case Disconnect(_, _) => OutletStep(s, a)
    case DisconnectAll(_) => OutletStep(s, a)
    case ResetOutlet(_) => OutletStep(s, a)
    case ResetInlet(_) => InletStep(s, a)
    case Read(_, _) => InletStep(s, a)
    case EndPass(_, _) => ReaderStep(s, a)
    case Wake(_, _) => ReaderStep(s, a)
  }

  ghost predicate Initial<T>(s: System<T>) {
    && (forall i | 0 <= i < |s.inlets| ::
          && ValidKind(s.inlets[i].port.kind) && s.inlets[i].port == Fresh(s.inlets[i].port.kind)
          && s.inlets[i].arrivals == [] && s.inlets[i].handed == []
          && s.inlets[i].resetAt == 0 && s.inlets[i].handedAt == 0
          && (s.inlets[i].signal.Some? ==> s.inlets[i].signal.value < |s.readers|))
    && (forall o | 0 <= o < |s.outlets| :: s.outlets[o] == Outlet([], 0, 0, 0))
    && (forall t | 0 <= t < |s.writers| :: s.writers[t] == [])
    && (forall r | 0 <= r < |s.readers| :: s.readers[r] == Reader(false, Pass(Watched(s, r), false)))
  }

  /** The state an interleaving leads to. */
  function Run<T>(s: System<T>, actions: seq<Action<T>>): System<T> {
    if actions == [] then s
    else Next(Run(s, actions[..|actions| - 1]), actions[|actions| - 1])
  }
}
