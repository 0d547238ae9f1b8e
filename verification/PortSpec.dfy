/** What one input port does to its state, operation by operation.

    The base input keeps the last value; the queued input keeps a bounded FIFO with one of two
    overflow policies. Both share the counters of the base. The counters are 64-bit words and wrap;
    the ghost history beside them never does. */
module PortSpec {
  import opened Common

  /** An unsigned 64-bit counter that would read `n` if it never wrapped. */
  function Wrap(n: nat): nat {
    n % 0x1_0000_0000_0000_0000
  }

  datatype Policy = DropOldest | DropIncoming

  datatype Kind = LastValue | Fifo(capacity: nat, policy: Policy)

  datatype Port<T> = Port(
    kind: Kind,
    value: Option<T>,
    queue: seq<T>,
    received: nat,
    discarded: nat,
    peak: nat)

  datatype Stats = Stats(received: nat, discarded: nat, pending: nat, peak: nat, capacity: nat)

  predicate ValidKind(kind: Kind) {
    kind.Fifo? ==> 0 < kind.capacity
  }

  function Fresh<T>(kind: Kind): Port<T> {
    Port(kind, None, [], 0, 0, 0)
  }

  function Tick(counter: nat): nat {
    Wrap(counter + 1)
  }

  function Max(a: nat, b: nat): nat {
    if a < b then b else a
  }

  function Pending<T>(p: Port<T>): seq<T> {
    match p.kind
    case LastValue => if p.value.Some? then [p.value.value] else []
    case Fifo(_, _) => p.queue
  }

  function Capacity(kind: Kind): nat {
    if kind.LastValue? then 1 else kind.capacity
  }

  predicate Full<T>(p: Port<T>) {
    |Pending(p)| >= Capacity(p.kind)
  }

  /** One arrival: counted, then stored the way the port's kind stores. */
  function Accept<T>(p: Port<T>, v: T): Port<T> {
    Store(p.(received := Tick(p.received)), v)
  }

  function Store<T>(p: Port<T>, v: T): Port<T> {
    match p.kind
    case LastValue =>
      p.(discarded := if p.value.Some? then Tick(p.discarded) else p.discarded,
         value := Some(v),
         peak := Max(p.peak, 1))
    case Fifo(capacity, policy) =>
      var roomy := MakeRoom(p);
      var queue := if roomy.1 then roomy.0.queue + [v] else roomy.0.queue;
      roomy.0.(queue := queue, peak := Max(p.peak, |queue|))
  }

  /** Applies the overflow policy; answers whether the arriving value is to be queued. */
  function MakeRoom<T>(p: Port<T>): (Port<T>, bool)
    requires p.kind.Fifo?
  {
    if |p.queue| < p.kind.capacity then (p, true)
    else
      var counted := p.(discarded := Tick(p.discarded));
      if p.kind.policy == DropIncoming then (counted, false)
      else (counted.(queue := if p.queue == [] then [] else p.queue[1..]), true)
  }

  /** Removes the readable value, or the queue head. */
  function Take<T>(p: Port<T>): (Port<T>, Option<T>) {
    match p.kind
    case LastValue => (p.(value := None), p.value)
    case Fifo(_, _) =>
      if p.queue == [] then (p, None) else (p.(queue := p.queue[1..]), Some(p.queue[0]))
  }

  /** Hands out everything readable at once. */
  function Drain<T>(p: Port<T>): (Port<T>, seq<T>) {
    (p.(value := if p.kind.LastValue? then None else p.value,
        queue := if p.kind.Fifo? then [] else p.queue), Pending(p))
  }

  function Reset<T>(p: Port<T>): Port<T> {
    Fresh(p.kind)
  }

  function StatsOf<T>(p: Port<T>): Stats {
    Stats(p.received, p.discarded, |Pending(p)|, p.peak, Capacity(p.kind))
  }

  /** The value that stops being readable, or never becomes so, when `v` arrives at a full port. */
  function Lost<T>(p: Port<T>, v: T): seq<T> {
    if !Full(p) then []
    else if p.kind.Fifo? && p.kind.policy == DropIncoming then [v]
    else if Pending(p) == [] then [] else [Pending(p)[0]]
  }

  predicate Refuses(kind: Kind) {
    kind.Fifo? && kind.policy == DropIncoming
  }

  /** What reading leaves alone. */
  predicate SameCounters<T>(p: Port<T>, q: Port<T>) {
    p.kind == q.kind && p.received == q.received && p.discarded == q.discarded && p.peak == q.peak
  }

  /** The 64-bit counter reads `n`, modulo its word. */
  predicate Counts(counter: nat, n: nat) {
    counter == Wrap(n)
  }

  lemma CountsTick(counter: nat, n: nat)
    requires Counts(counter, n)
    ensures Counts(Tick(counter), n + 1)
  {}

  /** What an arrival does to the readable values, whatever the kind. */
  lemma AcceptPending<T>(p: Port<T>, v: T)
    requires ValidKind(p.kind) && |Pending(p)| <= Capacity(p.kind)
    ensures Accept(p, v).kind == p.kind
    ensures Accept(p, v).received == Tick(p.received)
    ensures Accept(p, v).discarded == if Full(p) then Tick(p.discarded) else p.discarded
    ensures Accept(p, v).peak == Max(p.peak, |Pending(Accept(p, v))|)
    ensures Pending(Accept(p, v)) ==
            if !Full(p) then Pending(p) + [v]
            else if Refuses(p.kind) then Pending(p)
            else Pending(p)[1..] + [v]
    ensures Lost(p, v) ==
            if !Full(p) then [] else if Refuses(p.kind) then [v] else [Pending(p)[0]]
  {}
}
