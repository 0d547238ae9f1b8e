/** The ports themselves: objects updated in place, written to through outputs. */
module Ports {
  import opened Common
  import opened PortSpec

  datatype PortError = ZeroCapacity | NoValue | QueueEmpty | AlreadyConnected

  /** Sink of the bare "something was delivered" signal. Beside it stands what the input showed at the
      moment it fired. */
  class Notifier {
    var signaled: bool
    ghost var shown: Stats

    constructor ()
      ensures !signaled
    {
      signaled := false;
    }

    method Notify(ghost showing: Stats)
      modifies this
      ensures signaled && shown == showing
    {
      signaled := true;
      shown := showing;
    }
  }

  /** The object a writer hands over: once moved from, it may not be read again, which is what
      every reader's precondition says. */
  class Payload<T> {
    var value: T
    var intact: bool

    constructor (v: T)
      ensures value == v && intact
    {
      value, intact := v, true;
    }

    method Copy() returns (v: T)
      requires intact
      ensures v == value
    {
      v := value;
    }

    method MoveOut() returns (v: T)
      requires intact
      modifies this
      ensures v == old(value) && !intact
    {
      v := value;
      intact := false;
    }
  }

  /** An input: the base kind keeps the last value, the queued kind overrides the storage half with
      a bounded FIFO. The kind is fixed at construction, as the dynamic type is. */
  class InputPort<T> {
    const kind: Kind
    var held: Option<T>
    var queue: seq<T>
    var received: nat
    var discarded: nat
    var peakPending: nat
    var notifier: Notifier?

    ghost function State(): Port<T>
      reads this
    {
      Port(kind, held, queue, received, discarded, peakPending)
    }

    constructor (kind: Kind)
      requires ValidKind(kind)
      ensures State() == Fresh(kind) && notifier == null
    {
      this.kind := kind;
      held, queue := None, [];
      received, discarded, peakPending := 0, 0, 0;
      notifier := null;
    }

    /** A queue of no capacity would accept nothing and is refused. */
    static method Build(kind: Kind) returns (r: Result<InputPort<T>, PortError>)
      ensures r.Ok? <==> ValidKind(kind)
      ensures r.Ok? ==> fresh(r.value) && r.value.State() == Fresh(kind) && r.value.notifier == null
      ensures r.Err? ==> r.error == ZeroCapacity
    {
      if kind.Fifo? && kind.capacity == 0 {
        return Err(ZeroCapacity);
      }
      var port := new InputPort(kind);
      r := Ok(port);
    }

    // ----- Arrival -----

    method NoteOverwrite()
      modifies this`discarded
      ensures discarded == if held.Some? then Tick(old(discarded)) else old(discarded)
    {
      if held.Some? {
        discarded := Tick(discarded);
      }
    }

    method NotePending(pending: nat)
      modifies this`peakPending
      ensures peakPending == Max(old(peakPending), pending)
    {
      if peakPending < pending {
        peakPending := pending;
      }
    }

    method MakeRoomFor() returns (roomy: bool)
      requires kind.Fifo? && ValidKind(kind)
      modifies this`discarded, this`queue
      ensures (State(), roomy) == MakeRoom(old(State()))
    {
      if |queue| < kind.capacity {
        return true;
      }
      discarded := Tick(discarded);
      if kind.policy == DropIncoming {
        return false;
      }
      queue := queue[1..];
      return true;
    }

    method StoreValue(v: T)
      requires ValidKind(kind)
      modifies this`held, this`queue, this`discarded, this`peakPending
      ensures State() == Store(old(State()), v)
    {
      if kind.LastValue? {
        NoteOverwrite();
        held := Some(v);
        NotePending(1);
      } else {
        var roomy := MakeRoomFor();
        if roomy {
          queue := queue + [v];
        }
        NotePending(|queue|);
      }
    }

    /** A direct write: counted and stored, with no notification. */
    method Put(v: T)
      requires ValidKind(kind)
      modifies this`held, this`queue, this`received, this`discarded, this`peakPending
      ensures State() == Accept(old(State()), v)
    {
      received := Tick(received);
      StoreValue(v);
    }

    /** Delivery of a value the writer keeps. The signal fires when the value is already there: whoever it
        wakes finds the input as the delivery left it. */
    method Deliver(p: Payload<T>)
      requires ValidKind(kind) && p.intact
      modifies this`held, this`queue, this`received, this`discarded, this`peakPending, notifier
      ensures State() == Accept(old(State()), p.value)
      ensures notifier != null ==> notifier.signaled && notifier.shown == StatsOf(State())
    {
      var v := p.Copy();
      Put(v);
      if notifier != null {
        notifier.Notify(StatsOf(State()));
      }
    }

    /** Delivery of a value the writer hands over and must not use afterwards. */
    method DeliverMove(p: Payload<T>)
      requires ValidKind(kind) && p.intact
      modifies this`held, this`queue, this`received, this`discarded, this`peakPending, notifier, p
      ensures State() == Accept(old(State()), old(p.value))
      ensures notifier != null ==> notifier.signaled && notifier.shown == StatsOf(State())
      ensures !p.intact
    {
      var v := p.MoveOut();
      Put(v);
      if notifier != null {
        notifier.Notify(StatsOf(State()));
      }
    }

    // ----- Reading -----

    method Empty() returns (r: bool)
      ensures r <==> Pending(State()) == []
    {
      r := if kind.LastValue? then held.None? else |queue| == 0;
    }

    method ReadStats() returns (s: Stats)
      ensures s == StatsOf(State())
      ensures s.received == received && s.discarded == discarded && s.peak == peakPending
      ensures s.pending == |Pending(State())|
      ensures s.capacity == if kind.Fifo? then kind.capacity else 1
    {
      var pending := if kind.Fifo? then |queue| else if held.Some? then 1 else 0;
      s := Stats(received, discarded, pending, peakPending, Capacity(kind));
    }

    /** Copies the state; the base storage is read whatever the kind. */
    method Get() returns (r: Result<T, PortError>)
      ensures r == if held.Some? then Ok(held.value) else Err(NoValue)
    {
      if held.None? {
        return Err(NoValue);
      }
      r := Ok(held.value);
    }

    method TakeValue() returns (out: Option<T>)
      modifies this`held, this`queue
      ensures (State(), out) == Take(old(State()))
      ensures Pending(old(State())) == [] ==> out == None && Pending(State()) == []
      ensures Pending(old(State())) != [] ==>
                out == Some(Pending(old(State()))[0]) && Pending(State()) == Pending(old(State()))[1..]
      ensures SameCounters(State(), old(State()))
    {
      if kind.LastValue? {
        out := held;
        held := None;
      } else if |queue| == 0 {
        out := None;
      } else {
        out := Some(queue[0]);
        queue := queue[1..];
      }
    }

    method Pop() returns (r: Result<T, PortError>)
      requires kind.Fifo?
      modifies this`held, this`queue
      ensures State() == Take(old(State())).0
      ensures queue == if old(queue) == [] then [] else old(queue)[1..]
      ensures r.Ok? <==> old(queue) != []
      ensures r == if r.Ok? then Ok(old(queue)[0]) else Err(QueueEmpty)
    {
      var out := TakeValue();
      r := if out.Some? then Ok(out.value) else Err(QueueEmpty);
    }

    method DrainAll() returns (out: seq<T>)
      requires kind.Fifo?
      modifies this`queue
      ensures (State(), out) == Drain(old(State()))
      ensures out == Pending(old(State())) && Pending(State()) == []
      ensures SameCounters(State(), old(State()))
    {
      out := queue;
      queue := [];
    }

    method ResetPort()
      modifies this`held, this`queue, this`received, this`discarded, this`peakPending
      ensures State() == Reset(old(State()))
      ensures held == None && queue == [] && received == discarded == peakPending == 0
    {
      held, queue := None, [];
      received, discarded, peakPending := 0, 0, 0;
    }
  }

  ghost function NotifiersOf<T>(targets: seq<InputPort<T>>): set<Notifier>
    reads targets
  {
    set p: InputPort<T> | p in targets && p.notifier != null :: p.notifier
  }

  /** An output: a copy-on-write list of subscribers and a write counter. Assigning `targets` a new
      sequence is the swap of the shared pointer; a sequence already taken is a snapshot. */
  class OutputPort<T> {
    var targets: seq<InputPort<T>>
    var writes: nat

    ghost predicate Valid()
      reads this
    {
      && Distinct(targets)
      && forall p | p in targets :: ValidKind(p.kind)
    }

    constructor ()
      ensures Valid() && targets == [] && writes == 0
    {
      targets, writes := [], 0;
    }

    method Holds(in_: InputPort<T>) returns (found: bool)
      ensures found <==> in_ in targets
    {
      found := false;
      for i := 0 to |targets|
        invariant !found && in_ !in targets[..i]
      {
        if targets[i] == in_ {
          return true;
        }
      }
    }

    method Connect(in_: InputPort<T>) returns (r: Result<(), PortError>)
      requires Valid() && ValidKind(in_.kind)
      modifies this`targets
      ensures Valid()
      ensures r == if in_ in old(targets) then Err(AlreadyConnected) else Ok(())
      ensures targets == if r.Ok? then old(targets) + [in_] else old(targets)
    {
      var found := Holds(in_);
      if found {
        return Err(AlreadyConnected);
      }
      targets := targets + [in_];
      r := Ok(());
    }

    /** Breaks one connection; the others keep their order. */
    method Disconnect(in_: InputPort<T>) returns (found: bool)
      requires Valid()
      modifies this`targets
      ensures Valid()
      ensures found <==> in_ in old(targets)
      ensures targets == Without(old(targets), in_)
      ensures !found ==> targets == old(targets)
      ensures forall k | 0 <= k < |old(targets)| && old(targets)[k] == in_ ::
                targets == old(targets)[..k] + old(targets)[k + 1..]
    {
      forall k | 0 <= k < |targets| && targets[k] == in_
        ensures Without(targets, in_) == targets[..k] + targets[k + 1..]
      {
        WithoutOne(targets, k);
      }
      WithoutKeepsRest(targets, in_);
      found := Holds(in_);
      if !found {
        WithoutAbsent(targets, in_);
        return;
      }
      var next: seq<InputPort<T>> := [];
      for i := 0 to |targets|
        invariant next == Without(targets[..i], in_)
      {
        assert targets[..i + 1][..i] == targets[..i];
        if targets[i] != in_ {
          next := next + [targets[i]];
        }
      }
      assert targets[..|targets|] == targets;
      assert next == Without(targets, in_);
      targets := next;
    }

    method DisconnectAll()
      modifies this`targets
      ensures Valid() && targets == []
    {
      targets := [];
    }

    method ResetCounter()
      modifies this`writes
      ensures writes == 0
    {
      writes := 0;
    }

    /** Hands the value to every subscriber of the snapshot, moving it into the last one when the
        writer owns it. That every read meets an intact value is the precondition of each call. */
    method Dispatch(snapshot: seq<InputPort<T>>, p: Payload<T>, owned: bool)
      requires Distinct(snapshot) && p.intact
      requires forall q | q in snapshot :: ValidKind(q.kind)
      modifies snapshot, NotifiersOf(snapshot), p
      ensures forall q | q in snapshot :: q.State() == Accept(old(q.State()), old(p.value))
      ensures forall q | q in snapshot :: q.notifier == old(q.notifier) && (q.notifier != null ==> q.notifier.signaled)
      ensures p.intact <==> !(owned && snapshot != [])
    {
      hide Accept;
      if |snapshot| == 0 {
        return;
      }
      var last := |snapshot| - 1;
      for i := 0 to last
        invariant p.intact && p.value == old(p.value)
        invariant forall k | 0 <= k < |snapshot| :: snapshot[k].notifier == old(snapshot[k].notifier)
        invariant forall k | 0 <= k < i :: snapshot[k].State() == Accept(old(snapshot[k].State()), p.value)
        invariant forall k | 0 <= k < i :: snapshot[k].notifier != null ==> snapshot[k].notifier.signaled
        invariant forall k | i <= k < |snapshot| :: snapshot[k].State() == old(snapshot[k].State())
      {
        snapshot[i].Deliver(p);
      }
      if owned {
        snapshot[last].DeliverMove(p);
      } else {
        snapshot[last].Deliver(p);
      }
    }

    /** A write: the snapshot and the count are taken under the lock, delivery runs after it. */
    method Write(p: Payload<T>, owned: bool)
      requires Valid() && p.intact
      modifies this`writes, targets, NotifiersOf(targets), p
      ensures targets == old(targets) && writes == Tick(old(writes))
      ensures forall q | q in targets :: q.State() == Accept(old(q.State()), old(p.value))
      ensures forall q | q in targets :: q.notifier == old(q.notifier) && (q.notifier != null ==> q.notifier.signaled)
      ensures p.intact <==> !(owned && targets != [])
    {
      var snapshot := targets;
      writes := Tick(writes);
      Dispatch(snapshot, p, owned);
    }
  }
}
