/** What holds of an input port over every run of arrivals, takes, drains and resets. */
module PortRuns {
  import opened Common
  import opened PortSpec

  datatype Op<T> = Write(v: T) | TakeOne | TakeAll | Clear

  /** A port together with everything that happened to it since it was built or last reset.

      accepted, handed and lost are the values that arrived, reached the reader and never will;
      full[i] tells whether the i-th arrival found the port full; headTaken[k] tells whether the
      k-th removal from the front was the reader's; sizes are the pending counts seen after each
      operation. */
  datatype History<T> = History(
    port: Port<T>,
    accepted: seq<T>,
    handed: seq<T>,
    lost: seq<T>,
    full: seq<bool>,
    headTaken: seq<bool>,
    sizes: seq<nat>)

  function Begin<T>(kind: Kind): History<T> {
    History(Fresh(kind), [], [], [], [], [], [])
  }

  function Trues(n: nat): (r: seq<bool>)
    ensures |r| == n
  {
    seq(n, _ => true)
  }

  function Step<T>(h: History<T>, op: Op<T>): History<T> {
    match op
    case Write(v) =>
      var p := Accept(h.port, v);
      h.(port := p, accepted := h.accepted + [v], lost := h.lost + Lost(h.port, v),
         full := h.full + [Full(h.port)],
         headTaken := h.headTaken + (if Full(h.port) && !Refuses(h.port.kind) then [false] else []),
         sizes := h.sizes + [|Pending(p)|])
    case TakeOne =>
      var (p, out) := Take(h.port);
      h.(port := p,
         handed := h.handed + (if out.Some? then [out.value] else []),
         headTaken := h.headTaken + (if out.Some? then [true] else []),
         sizes := h.sizes + [|Pending(p)|])
    case TakeAll =>
      var (p, out) := Drain(h.port);
      h.(port := p, handed := h.handed + out, headTaken := h.headTaken + Trues(|out|),
         sizes := h.sizes + [|Pending(p)|])
    case Clear => Begin(h.port.kind)
  }

  function Run<T>(kind: Kind, ops: seq<Op<T>>): History<T> {
    if ops == [] then Begin(kind) else Step(Run(kind, ops[..|ops| - 1]), ops[|ops| - 1])
  }

  // ----- Conservation -----

  ghost predicate Conserves<T>(h: History<T>) {
    && Counts(h.port.received, |h.accepted|)
    && Counts(h.port.discarded, |h.lost|)
    && |h.accepted| == |h.handed| + |h.lost| + |Pending(h.port)|
    && |Pending(h.port)| <= Capacity(h.port.kind)
  }

  /** The peak counter is the largest pending count seen since the reset, and zero before any. */
  ghost predicate PeakIsMax<T>(h: History<T>) {
    && (forall i | 0 <= i < |h.sizes| :: h.sizes[i] <= h.port.peak)
    && (h.port.peak == 0 || h.port.peak in h.sizes)
    && |Pending(h.port)| <= h.port.peak
  }

  lemma ConservesWrite<T>(h: History<T>, v: T)
    requires ValidKind(h.port.kind) && Conserves(h)
    ensures Conserves(Step(h, Write(v)))
  {
    AcceptPending(h.port, v);
    CountsTick(h.port.received, |h.accepted|);
    CountsTick(h.port.discarded, |h.lost|);
  }

  lemma ConservesRead<T>(h: History<T>, op: Op<T>)
    requires Conserves(h) && (op.TakeOne? || op.TakeAll?)
    ensures Conserves(Step(h, op))
  {
    var next := Step(h, op);
    var p := Pending(h.port);
    var n := if op.TakeAll? then |p| else if p == [] then 0 else 1;
    assert p == p[..n] + p[n..];
    assert Pending(next.port) == p[n..] && next.handed == h.handed + p[..n];
  }

  lemma PeakStep<T>(h: History<T>, op: Op<T>)
    requires ValidKind(h.port.kind) && PeakIsMax(h)
    ensures PeakIsMax(Step(h, op))
  {
    var n := Step(h, op);
    if !op.Clear? {
      assert n.sizes == h.sizes + [|Pending(n.port)|];
      assert n.sizes[|h.sizes|] == |Pending(n.port)|;
      forall x | x in h.sizes ensures x in n.sizes {}
    }
  }

  /** Over all runs: received = handed out + discarded + pending as values and not just as numbers,
      the two counters are those lengths modulo the word, the port never holds more than its
      capacity, and the peak is exactly the largest pending count ever reached. */
  lemma {:induction false} Conservation<T>(kind: Kind, ops: seq<Op<T>>)
    requires ValidKind(kind)
    ensures Run(kind, ops).port.kind == kind
    ensures Conserves(Run(kind, ops)) && PeakIsMax(Run(kind, ops))
  {
    if ops != [] {
      var n := |ops| - 1;
      Conservation(kind, ops[..n]);
      match ops[n] {
        case Write(v) => ConservesWrite(Run(kind, ops[..n]), v);
        case TakeOne => ConservesRead(Run(kind, ops[..n]), TakeOne);
        case TakeAll => ConservesRead(Run(kind, ops[..n]), TakeAll);
        case Clear =>
      }
      PeakStep(Run(kind, ops[..n]), ops[n]);
    }
  }

  lemma RunLonger<T>(kind: Kind, ops: seq<Op<T>>, op: Op<T>)
    ensures Run(kind, ops + [op]) == Step(Run(kind, ops), op)
  {
    assert (ops + [op])[..|ops|] == ops;
  }

  /** After any run a drain hands over all there is to read, in order, and leaves nothing; a take hands over
      the first of it and leaves the rest. Neither touches a counter. */
  lemma ReadsHandOver<T>(kind: Kind, ops: seq<Op<T>>)
    ensures var h, drained := Run(kind, ops), Run(kind, ops + [TakeAll]);
            && drained.handed == h.handed + Pending(h.port) && Pending(drained.port) == []
            && SameCounters(drained.port, h.port) && drained.lost == h.lost
    ensures var h, taken := Run(kind, ops), Run(kind, ops + [TakeOne]);
            && SameCounters(taken.port, h.port) && taken.lost == h.lost
            && if Pending(h.port) == [] then Pending(taken.port) == [] && taken.handed == h.handed
               else taken.handed == h.handed + [Pending(h.port)[0]] && Pending(taken.port) == Pending(h.port)[1..]
  {
    RunLonger(kind, ops, TakeAll);
    RunLonger(kind, ops, TakeOne);
  }

  /** What the stats say after any run, in 64 bits, about everything since the last reset. */
  lemma StatsTell<T>(kind: Kind, ops: seq<Op<T>>)
    requires ValidKind(kind)
    ensures var h := Run(kind, ops);
            var s := StatsOf(h.port);
            && s.received == |h.accepted| % 0x1_0000_0000_0000_0000
            && s.discarded == |h.lost| % 0x1_0000_0000_0000_0000
            && s.pending == |h.accepted| - |h.handed| - |h.lost|
            && (forall k | 0 <= k < |h.sizes| :: h.sizes[k] <= s.peak) && (s.peak == 0 || s.peak in h.sizes)
            && s.capacity == if kind.Fifo? then kind.capacity else 1
  {
    Conservation(kind, ops);
  }

  // ----- What each overflow policy keeps -----

  /** Dropping the oldest: the front of everything accepted was either handed out or dropped, in
      that order, and what is pending is exactly the tail that is left. */
  ghost predicate KeepsTail<T>(h: History<T>) {
    var gone := |h.headTaken|;
    && gone <= |h.accepted|
    && Pending(h.port) == h.accepted[gone..]
    && h.handed == Picked(h.accepted, h.headTaken, gone, true)
    && h.lost == Picked(h.accepted, h.headTaken, gone, false)
  }

  /** Settling `n` more elements from the front, all handed out or all dropped. */
  lemma {:induction false} Settle<T>(accepted: seq<T>, flags: seq<bool>, more: seq<bool>, which: bool, w: bool)
    requires |flags| + |more| <= |accepted|
    requires forall k | 0 <= k < |more| :: more[k] == which
    ensures var gone := |flags|;
            Picked(accepted, flags + more, gone + |more|, w) ==
            Picked(accepted, flags, gone, w) + (if w == which then accepted[gone..gone + |more|] else [])
  {
    var gone, n := |flags|, |more|;
    if n == 0 {
      assert flags + more == flags;
    } else {
      Settle(accepted, flags, more[..n - 1], which, w);
      PickedLocal(accepted, flags + more, accepted, flags + more[..n - 1], gone + n - 1, w);
      assert accepted[gone..gone + n] == accepted[gone..gone + n - 1] + [accepted[gone + n - 1]];
    }
  }

  /** `next` is `h` after `v` arrived, displacing the front of what was pending if `drop`. */
  ghost predicate Arrived<T>(h: History<T>, next: History<T>, v: T, drop: bool) {
    && (drop ==> Pending(h.port) != [])
    && Pending(next.port) == Pending(h.port)[if drop then 1 else 0..] + [v]
    && next.handed == h.handed && next.accepted == h.accepted + [v]
    && next.lost == h.lost + (if drop then [Pending(h.port)[0]] else [])
    && next.headTaken == h.headTaken + (if drop then [false] else [])
  }

  lemma KeepsTailWrite<T>(h: History<T>, next: History<T>, v: T, drop: bool)
    requires KeepsTail(h) && Arrived(h, next, v, drop)
    ensures KeepsTail(next)
  {
    var gone := |h.headTaken|;
    PickedLocal(next.accepted, h.headTaken, h.accepted, h.headTaken, gone, true);
    PickedLocal(next.accepted, h.headTaken, h.accepted, h.headTaken, gone, false);
    var more := if drop then [false] else [];
    Settle(next.accepted, h.headTaken, more, false, true);
    Settle(next.accepted, h.headTaken, more, false, false);
    if drop {
      assert Pending(h.port)[0] == h.accepted[gone];
      assert next.accepted[gone..gone + 1] == [h.accepted[gone]];
    }
  }

  /** `next` is `h` after its reader was handed the first `n` pending values. */
  ghost predicate HandedOut<T>(h: History<T>, next: History<T>, n: nat) {
    && n <= |Pending(h.port)|
    && Pending(next.port) == Pending(h.port)[n..]
    && next.handed == h.handed + Pending(h.port)[..n]
    && next.headTaken == h.headTaken + Trues(n)
    && next.accepted == h.accepted && next.lost == h.lost
  }

  lemma KeepsTailRead<T>(h: History<T>, next: History<T>, n: nat)
    requires KeepsTail(h) && HandedOut(h, next, n)
    ensures KeepsTail(next)
  {
    var gone := |h.headTaken|;
    Settle(h.accepted, h.headTaken, Trues(n), true, true);
    Settle(h.accepted, h.headTaken, Trues(n), true, false);
    assert h.accepted[gone + n..] == Pending(h.port)[n..];
    assert h.accepted[gone..gone + n] == Pending(h.port)[..n];
  }

  lemma ReadHandsOut<T>(h: History<T>, op: Op<T>) returns (n: nat)
    requires op.TakeOne? || op.TakeAll?
    ensures HandedOut(h, Step(h, op), n)
  {
    var p := Pending(h.port);
    n := if op.TakeAll? then |p| else if p == [] then 0 else 1;
    if n == 0 {
      assert Trues(0) == [];
    } else if op.TakeOne? {
      assert Trues(1) == [true];
    }
  }

  /** Under drop_oldest, and for the last-value input, the readable values are always a suffix of
      everything accepted since the reset; before them everything was handed out or displaced. */
  lemma {:induction false} OldestDroppedKeepsTail<T>(kind: Kind, ops: seq<Op<T>>)
    requires ValidKind(kind) && !Refuses(kind)
    ensures KeepsTail(Run(kind, ops))
  {
    if ops != [] {
      var n := |ops| - 1;
      OldestDroppedKeepsTail(kind, ops[..n]);
      Conservation(kind, ops[..n]);
      var h := Run(kind, ops[..n]);
      if ops[n].Write? {
        AcceptPending(h.port, ops[n].v);
        assert Arrived(h, Step(h, ops[n]), ops[n].v, Full(h.port));
        KeepsTailWrite(h, Step(h, ops[n]), ops[n].v, Full(h.port));
      } else if !ops[n].Clear? {
        var count := ReadHandsOut(h, ops[n]);
        KeepsTailRead(h, Step(h, ops[n]), count);
      }
    }
  }

  /** Refusing the arriving value: hand-outs followed by pending are exactly the arrivals that did
      not find the queue full, and the lost ones are exactly those that did. */
  ghost predicate KeepsRoomy<T>(h: History<T>) {
    && |h.full| == |h.accepted|
    && h.handed + Pending(h.port) == Picked(h.accepted, h.full, |h.full|, false)
    && h.lost == Picked(h.accepted, h.full, |h.full|, true)
  }

  lemma KeepsRoomyWrite<T>(h: History<T>, v: T)
    requires ValidKind(h.port.kind) && Refuses(h.port.kind)
    requires KeepsRoomy(h) && |Pending(h.port)| <= Capacity(h.port.kind)
    ensures KeepsRoomy(Step(h, Write(v)))
  {
    var next := Step(h, Write(v));
    AcceptPending(h.port, v);
    PickedLocal(next.accepted, next.full, h.accepted, h.full, |h.full|, true);
    PickedLocal(next.accepted, next.full, h.accepted, h.full, |h.full|, false);
    assert h.handed + (Pending(h.port) + [v]) == h.handed + Pending(h.port) + [v];
  }

  lemma KeepsRoomyRead<T>(h: History<T>, op: Op<T>)
    requires Refuses(h.port.kind) && KeepsRoomy(h) && (op.TakeOne? || op.TakeAll?)
    ensures KeepsRoomy(Step(h, op))
  {
    var next := Step(h, op);
    assert next.handed + Pending(next.port) == h.handed + Pending(h.port);
  }

  lemma {:induction false} IncomingDroppedKeepsRun<T>(capacity: nat, ops: seq<Op<T>>)
    requires 0 < capacity
    ensures KeepsRoomy(Run(Fifo(capacity, DropIncoming), ops))
  {
    var kind := Fifo(capacity, DropIncoming);
    if ops != [] {
      var n := |ops| - 1;
      IncomingDroppedKeepsRun(capacity, ops[..n]);
      Conservation(kind, ops[..n]);
      match ops[n]
      case Write(v) => KeepsRoomyWrite(Run(kind, ops[..n]), v);
      case TakeOne => KeepsRoomyRead(Run(kind, ops[..n]), TakeOne);
      case TakeAll => KeepsRoomyRead(Run(kind, ops[..n]), TakeAll);
      case Clear =>
    }
  }

  // ----- Two ports run side by side -----

  /** What a reader or an operator can see after one operation. */
  datatype Seen<T> = Seen(out: Option<T>, stats: Stats, empty: bool)

  function Observe<T>(h: History<T>, op: Op<T>): Seen<T> {
    var next := Step(h, op).port;
    Seen(if op.TakeOne? then Take(h.port).1 else None, StatsOf(next), Pending(next) == [])
  }

  /** Everything seen during a run, one record an operation. */
  function Trace<T>(kind: Kind, ops: seq<Op<T>>): seq<Seen<T>> {
    if ops == [] then []
    else
      var n := |ops| - 1;
      Trace(kind, ops[..n]) + [Observe(Run(kind, ops[..n]), ops[n])]
  }

  /** The base input and a queue of one that drops its oldest hold the same things. */
  ghost predicate Alike<T>(last: Port<T>, queue: Port<T>) {
    && last.kind == LastValue && queue.kind == Fifo(1, DropOldest)
    && Pending(last) == Pending(queue)
    && last.received == queue.received && last.discarded == queue.discarded && last.peak == queue.peak
  }

  /** input<T> cannot be told from a queued_input<T> of drop_oldest(1) by writing, taking, asking
      whether it is empty, reading its counters or resetting it. (drain is the queue's own.) */
  lemma {:induction false} LastValueIsQueueOfOne<T>(ops: seq<Op<T>>)
    ensures Alike(Run(LastValue, ops).port, Run(Fifo(1, DropOldest), ops).port)
    ensures Trace(LastValue, ops) == Trace(Fifo(1, DropOldest), ops)
    ensures Run(LastValue, ops).handed == Run(Fifo(1, DropOldest), ops).handed
  {
    if ops != [] {
      var n := |ops| - 1;
      LastValueIsQueueOfOne(ops[..n]);
      AlikeStep(Run(LastValue, ops[..n]), Run(Fifo(1, DropOldest), ops[..n]), ops[n]);
    }
  }

  lemma AlikeStep<T>(a: History<T>, b: History<T>, op: Op<T>)
    requires Alike(a.port, b.port)
    ensures Alike(Step(a, op).port, Step(b, op).port)
    ensures Observe(a, op) == Observe(b, op)
    ensures a.handed == b.handed ==> Step(a, op).handed == Step(b, op).handed
  {
    var q := b.port.queue;
    assert q == Pending(a.port);
    match op
    case Write(v) =>
      assert Pending(Accept(a.port, v)) == [v];
      assert Pending(Accept(b.port, v)) == [v];
    case TakeOne =>
    case TakeAll =>
    case Clear =>
  }

  predicate SameCounts<T>(a: Port<T>, b: Port<T>) {
    && a.kind.Fifo? && b.kind.Fifo? && a.kind.capacity == b.kind.capacity
    && |a.queue| == |b.queue| <= a.kind.capacity
    && a.received == b.received && a.discarded == b.discarded && a.peak == b.peak
  }

  /** Run on the same operations, the two policies agree at every step on everything but which
      values survive: size, received, discarded and peak, and how many values were handed out. */
  lemma {:induction false} PoliciesCountAlike<T>(capacity: nat, ops: seq<Op<T>>)
    requires 0 < capacity
    ensures var a := Run(Fifo(capacity, DropOldest), ops);
            var b := Run(Fifo(capacity, DropIncoming), ops);
            && a.port.kind == Fifo(capacity, DropOldest) && b.port.kind == Fifo(capacity, DropIncoming)
            && SameCounts(a.port, b.port)
            && StatsOf(a.port) == StatsOf(b.port)
            && |a.handed| == |b.handed| && a.full == b.full && a.sizes == b.sizes
  {
    if ops != [] {
      var n := |ops| - 1;
      PoliciesCountAlike(capacity, ops[..n]);
      if ops[n].Write? {
        AcceptPending(Run(Fifo(capacity, DropOldest), ops[..n]).port, ops[n].v);
        AcceptPending(Run(Fifo(capacity, DropIncoming), ops[..n]).port, ops[n].v);
      }
    }
  }
}
