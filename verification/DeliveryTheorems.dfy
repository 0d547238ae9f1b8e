/** What the delivery protocol promises in every interleaving. */
module DeliveryTheorems {
  import opened Common
  import opened PortSpec
  import opened Delivery
  import opened DeliveryInvariants

  /** Some interleaving leads from the initial state `s0` to `s`. */
  ghost predicate Reachable<T(!new)>(s0: System<T>, s: System<T>) {
    Initial(s0) && exists actions: seq<Action<T>> :: s == Run(s0, actions)
  }

  lemma ReachableInvariant<T(!new)>(s0: System<T>, s: System<T>)
    requires Reachable(s0, s)
    ensures Invariant(s) && SameWiring(s0, s)
  {
    InitialInvariant(s0);
    var actions :| s == Run(s0, actions);
    RunInvariant(s0, actions);
  }

  // ----- Exactly once, intact -----

  /** The log holds exactly one item of write `n` of writer `t`. */
  ghost predicate Once<T>(log: seq<Item<T>>, t: nat, n: nat) {
    exists k :: 0 <= k < |log| && IsStamp(log[k], t, n)
                && forall j | 0 <= j < |log| && IsStamp(log[j], t, n) :: j == k
  }

  predicate IsStamp<T>(item: Item<T>, t: nat, n: nat) {
    item.writer == t && item.n == n
  }

  /** The writes whose snapshot held input `i` and that have already reached it. */
  ghost function Reached<T>(s: System<T>, i: nat): set<(nat, nat)> {
    set t, n | 0 <= t < |s.writers| && 0 <= n < |s.writers[t]| && Served(s.writers[t][n], i) :: (t, n)
  }

  /** No write is under way. */
  ghost predicate Quiescent<T>(s: System<T>) {
    forall t | 0 <= t < |s.writers| :: Idle(s.writers[t])
  }

  lemma OrderedOnce<T>(log: seq<Item<T>>, t: nat, n: nat)
    requires Ordered(log) && HasStamp(log, t, n)
    ensures Once(log, t, n)
  {
    var k :| 0 <= k < |log| && log[k].writer == t && log[k].n == n;
    assert IsStamp(log[k], t, n);
    forall j | 0 <= j < |log| && j != k ensures !IsStamp(log[j], t, n) {
      var a, b := if j < k then j else k, if j < k then k else j;
      assert log[a].writer == log[b].writer ==> log[a].n < log[b].n;
    }
  }

  lemma LoggedOnce<T>(s: System<T>, i: nat, t: nat, n: nat)
    requires Shape(s) && Logged(s) && i < |s.inlets| && t < |s.writers| && n < |s.writers[t]|
    ensures Served(s.writers[t][n], i) ==> Once(s.inlets[i].arrivals, t, n)
    ensures !Served(s.writers[t][n], i) ==> !HasStamp(s.inlets[i].arrivals, t, n)
  {
    var log, w := s.inlets[i].arrivals, s.writers[t][n];
    assert InletLogged(s, i) && WriteLogged(s, t, n);
    if Served(w, i) {
      var p :| 0 <= p < w.pos <= |w.targets| && w.targets[p] == i;
      assert HasStamp(log, t, n);
      OrderedOnce(log, t, n);
    } else {
      forall k | 0 <= k < |log| ensures !IsStamp(log[k], t, n) {
        assert Genuine(s, i, log[k], k);
      }
    }
  }

  lemma QuiescentDone<T>(s: System<T>, t: nat, n: nat)
    requires Shape(s) && Quiescent(s) && t < |s.writers| && n < |s.writers[t]|
    ensures Done(s.writers[t][n])
  {
    assert WriterOk(s, s.writers[t]);
  }

  lemma ReachedCount<T>(s: System<T>, i: nat)
    requires Shape(s) && Logged(s) && i < |s.inlets|
    ensures |s.inlets[i].arrivals| == |Reached(s, i)|
  {
    var log := s.inlets[i].arrivals;
    assert InletLogged(s, i);
    var stamps := seq(|log|, k requires 0 <= k < |log| => (log[k].writer, log[k].n));
    assert Distinct(stamps);
    DistinctCount(stamps);
    assert (set x | x in stamps) == Reached(s, i) by {
      forall x | x in stamps ensures x in Reached(s, i) {
        var k :| 0 <= k < |stamps| && stamps[k] == x;
        assert Genuine(s, i, log[k], k);
      }
      forall x | x in Reached(s, i) ensures x in stamps {
        LoggedOnce(s, i, x.0, x.1);
        var k :| 0 <= k < |log| && IsStamp(log[k], x.0, x.1);
        assert stamps[k] == x;
      }
    }
  }

  /** In every reachable state an input's log holds a write exactly once if that write has served it
      and not at all otherwise; once the write has returned, serving means being in its snapshot, and with
      no write in flight every write has returned. */
  lemma ExactlyOnce<T(!new)>(s0: System<T>, s: System<T>, i: nat, t: nat, n: nat)
    requires Reachable(s0, s)
    requires i < |s.inlets| && t < |s.writers| && n < |s.writers[t]|
    ensures if Served(s.writers[t][n], i) then Once(s.inlets[i].arrivals, t, n)
            else !HasStamp(s.inlets[i].arrivals, t, n)
    ensures Done(s.writers[t][n]) ==> (Served(s.writers[t][n], i) <==> i in s.writers[t][n].targets)
    ensures Quiescent(s) ==> Done(s.writers[t][n])
  {
    ReachableInvariant(s0, s);
    LoggedOnce(s, i, t, n);
    if Done(s.writers[t][n]) {
    }
    if Quiescent(s) {
      QuiescentDone(s, t, n);
    }
  }

  /** By the time it returns, a write has delivered its value to exactly the inputs that were connected when
      it began, once each, whatever is connected, disconnected, read or reset meanwhile and however many
      other writes are still in flight. */
  lemma WriteReachesItsSubscribers<T(!new)>(s0: System<T>, s: System<T>, t: nat, o: nat, v: T, owned: bool,
                                            later: seq<Action<T>>, i: nat)
    requires Reachable(s0, s) && i < |s.inlets|
    requires CanBegin(s, t, o)
    ensures var n := |s.writers[t]|;
            var end := Run(Next(s, BeginWrite(t, o, v, owned)), later);
            && |end.inlets| == |s.inlets| && t < |end.writers| && n < |end.writers[t]|
            && end.writers[t][n].output == o && end.writers[t][n].value == v
            && (Done(end.writers[t][n]) ==>
                  if i in s.outlets[o].targets then Once(end.inlets[i].arrivals, t, n)
                  else !HasStamp(end.inlets[i].arrivals, t, n))
  {
    var n := |s.writers[t]|;
    var a := BeginWrite(t, o, v, owned);
    ReachableInvariant(s0, s);
    StepInvariant(s, a);
    GrowsStep(s, a);
    var begun := Next(s, a);
    assert begun.writers[t][n] == Write(o, v, owned, true, s.outlets[o].targets, 0, false);
    RunInvariant(begun, later);
    var end := Run(begun, later);
    assert WriteGrows(begun.writers[t][n], end.writers[t][n]);
    LoggedOnce(end, i, t, n);
    if Done(end.writers[t][n]) {
    }
  }

  /** Nothing else is in the log: every item stands for a write that served the input and carries
      the very value written, and the received counter is the number of those writes since the last
      reset, in its 64 bits. */
  lemma ReceivedIsReached<T(!new)>(s0: System<T>, s: System<T>, i: nat)
    requires Reachable(s0, s) && i < |s.inlets|
    ensures forall k | 0 <= k < |s.inlets[i].arrivals| :: Genuine(s, i, s.inlets[i].arrivals[k], k)
    ensures s.inlets[i].resetAt <= |Reached(s, i)| == |s.inlets[i].arrivals|
    ensures Counts(s.inlets[i].port.received, |Reached(s, i)| - s.inlets[i].resetAt)
  {
    ReachableInvariant(s0, s);
    ReachedCount(s, i);
    assert InletLogged(s, i) && InletOk(|s.readers|, s.inlets[i]);
  }

  /** The write counter of an output is the number of writes begun on it, less those begun before its last
      reset, in its 64 bits. */
  lemma WritesAreBegun<T(!new)>(s0: System<T>, s: System<T>, o: nat)
    requires Reachable(s0, s) && o < |s.outlets|
    ensures s.outlets[o].resetAt <= |Begun(s, o)| == s.outlets[o].issued
    ensures Counts(s.outlets[o].writes, |Begun(s, o)| - s.outlets[o].resetAt)
  {
    ReachableInvariant(s0, s);
    WritesTallied(s, o);
  }

  lemma WritesTallied<T>(s: System<T>, o: nat)
    requires Invariant(s) && o < |s.outlets|
    ensures s.outlets[o].resetAt <= |Begun(s, o)| == s.outlets[o].issued
    ensures Counts(s.outlets[o].writes, |Begun(s, o)| - s.outlets[o].resetAt)
  {
    assert OutletOk(s.outlets[o]);
  }

  lemma BegunGrows<T>(s: System<T>, s': System<T>, o: nat)
    requires Grows(s, s')
    ensures Begun(s, o) <= Begun(s', o)
  {
    forall x | x in Begun(s, o) ensures x in Begun(s', o) {
      assert WriteGrows(s.writers[x.0][x.1], s'.writers[x.0][x.1]);
    }
  }

  lemma ResetAtKept<T>(s: System<T>, a: Action<T>, o: nat)
    requires o < |s.outlets| == |Next(s, a).outlets| && a != ResetOutlet(o)
    ensures Next(s, a).outlets[o].resetAt == s.outlets[o].resetAt
  {}

  lemma {:induction false} ResetAtStays<T>(s: System<T>, actions: seq<Action<T>>, o: nat)
    requires o < |s.outlets| && ResetOutlet(o) !in actions
    ensures SameWiring(s, Run(s, actions)) && Run(s, actions).outlets[o].resetAt == s.outlets[o].resetAt
  {
    if actions != [] {
      var n := |actions| - 1;
      ResetAtStays(s, actions[..n], o);
      assert actions[n] in actions;
      var before := Run(s, actions[..n]);
      GrowsStep(before, actions[n]);
      ResetAtKept(before, actions[n], o);
    }
  }

  /** Reset an output in any reachable state and let anything happen but another reset of it: the counter is
      the number of writes begun on that output since, by all writers together. */
  lemma WritesSinceReset<T(!new)>(s0: System<T>, s: System<T>, o: nat, later: seq<Action<T>>)
    requires Reachable(s0, s) && o < |s.outlets| && ResetOutlet(o) !in later
    ensures var end := Run(Next(s, ResetOutlet(o)), later);
            && |end.outlets| == |s.outlets| && Begun(s, o) <= Begun(end, o)
            && Counts(end.outlets[o].writes, |Begun(end, o) - Begun(s, o)|)
  {
    hide Run, Invariant, Begun, Grows;
    ReachableInvariant(s0, s);
    StepInvariant(s, ResetOutlet(o));
    var cleared := Next(s, ResetOutlet(o));
    RunInvariant(cleared, later);
    var end := Run(cleared, later);
    BegunStays(s, ResetOutlet(o), o);
    BegunGrows(cleared, end, o);
    ResetAtStays(cleared, later, o);
    WritesTallied(s, o);
    WritesTallied(end, o);
    assert Begun(end, o) == (Begun(end, o) - Begun(s, o)) + Begun(s, o);
  }

  /** No delivery ever reads a value after it was moved into the last subscriber. */
  lemma MovedValueNeverRead<T(!new)>(s0: System<T>, s: System<T>, t: nat)
    requires Reachable(s0, s) && CanDeliver(s, t)
    ensures Current(s.writers[t]).intact
    ensures Carried(s, t).payload == Some(Current(s.writers[t]).value)
  {
    ReachableInvariant(s0, s);
    assert WriterOk(s, s.writers[t]) && WriteOk(s, Current(s.writers[t]));
  }

  // ----- Order -----

  lemma SeenOrdered<T>(inlet: Inlet<T>, seen: seq<Item<T>>)
    requires Ordered(inlet.arrivals) && InLogOrder(inlet, seen)
    ensures Ordered(seen)
  {
    forall a, b | 0 <= a < b < |seen| && seen[a].writer == seen[b].writer ensures seen[a].n < seen[b].n {
      assert inlet.arrivals[seen[a].at] == seen[a] && inlet.arrivals[seen[b].at] == seen[b];
      assert seen[a].at < seen[b].at;
    }
  }

  /** In every reachable state, what an input received from one writer is in that writer's program
      order, across all the outputs it writes to; what its reader was handed, followed by what is
      still pending, is a subsequence of that and keeps the order. */
  lemma WriterOrderKept<T(!new)>(s0: System<T>, s: System<T>, i: nat)
    requires Reachable(s0, s) && i < |s.inlets|
    ensures var inlet := s.inlets[i];
            && Ordered(inlet.arrivals)
            && InLogOrder(inlet, inlet.handed + Pending(inlet.port))
            && Ordered(inlet.handed + Pending(inlet.port))
  {
    ReachableInvariant(s0, s);
    var inlet := s.inlets[i];
    assert InletLogged(s, i) && InletSeen(inlet);
    SeenOrdered(inlet, inlet.handed + Pending(inlet.port));
  }

  // ----- Wake-ups -----

  /** In every reachable state a value delivered and unread is going to be looked for; so a reader
      asleep with its signal down, and no writer between its store and its notification, has nothing
      to read in any input that notifies it. */
  lemma NoLostWakeUp<T(!new)>(s0: System<T>, s: System<T>, i: nat)
    requires Reachable(s0, s) && i < |s.inlets|
    ensures Watchful(s, i)
    ensures forall r: nat | r < |s.readers| && s.inlets[i].signal == Some(r)
            && s.readers[r] == Reader(false, Waiting) ::
              Pending(s.inlets[i].port) == [] || Comes(s, i)
  {
    ReachableInvariant(s0, s);
  }

  // ----- Disconnecting -----

  /** A write of output `o` by writer `t` is in flight and still has input `i` ahead of it. */
  ghost predicate Ahead<T>(s: System<T>, t: nat, o: nat, i: nat) {
    && t < |s.writers| && s.writers[t] != []
    && var w := Current(s.writers[t]);
       w.output == o && exists k :: w.pos <= k < |w.targets| && w.targets[k] == i
  }

  ghost predicate Cut<T>(s: System<T>, o: nat, i: nat) {
    && (o < |s.outlets| ==> i !in s.outlets[o].targets)
    && forall t: nat :: !Ahead(s, t, o, i)
  }

  /** From state `s` to its successor `s'`, input `i` heard from output `o`. */
  ghost predicate Heard<T>(s: System<T>, s': System<T>, o: nat, i: nat)
    requires i < |s.inlets| && i < |s'.inlets|
  {
    exists k :: |s.inlets[i].arrivals| <= k < |s'.inlets[i].arrivals| && FromOutlet(s', s'.inlets[i].arrivals[k], o)
  }

  ghost predicate FromOutlet<T>(s: System<T>, item: Item<T>, o: nat) {
    item.writer < |s.writers| && item.n < |s.writers[item.writer]| && s.writers[item.writer][item.n].output == o
  }

  ghost predicate NeverConnects<T>(actions: seq<Action<T>>, o: nat, i: nat) {
    forall k | 0 <= k < |actions| :: actions[k] != Connect(o, i)
  }

  /** An output's list gains an input only by connecting it. */
  lemma ListStays<T>(s: System<T>, a: Action<T>, o: nat, i: nat)
    requires Shape(s) && o < |s.outlets| && i !in s.outlets[o].targets && a != Connect(o, i)
    ensures |Next(s, a).outlets| == |s.outlets| && i !in Next(s, a).outlets[o].targets
  {
    if a.Disconnect? && a.o < |s.outlets| {
      WithoutKeepsRest(s.outlets[a.o].targets, a.i);
    }
  }

  /** A step changes an output's list in one of three ways, or not at all: an input not on it is connected and goes
      last, one is disconnected and the others keep their order, or all are. */
  lemma ListChanges<T>(s: System<T>, a: Action<T>, o: nat)
    requires Shape(s) && o < |s.outlets|
    ensures |Next(s, a).outlets| == |s.outlets|
    ensures var was, now := s.outlets[o].targets, Next(s, a).outlets[o].targets;
            || now == was
            || (a.Connect? && a.o == o && a.i !in was && now == was + [a.i])
            || (a.Disconnect? && a.o == o
                && exists k :: 0 <= k < |was| && was[k] == a.i && now == was[..k] + was[k + 1..])
            || (a.DisconnectAll? && a.o == o && now == [])
  {
    if a.Disconnect? && a.o == o {
      var was := s.outlets[o].targets;
      if k :| 0 <= k < |was| && was[k] == a.i {
        WithoutOne(was, k);
      } else {
        WithoutAbsent(was, a.i);
      }
    }
  }

  lemma RewireList<T>(s: System<T>, a: Action<T>, o: nat, i: nat)
    requires Shape(s) && o < |s.outlets| && i < |s.inlets|
    ensures |Next(s, a).outlets| == |s.outlets|
    ensures i in Next(s, a).outlets[o].targets <==>
            a == Connect(o, i) || (i in s.outlets[o].targets && a != Disconnect(o, i) && a != DisconnectAll(o))
  {
    if a.Disconnect? && a.o < |s.outlets| {
      WithoutKeepsRest(s.outlets[a.o].targets, a.i);
    }
  }

  /** Input `i` was connected to output `o` and not disconnected from it since. */
  ghost predicate Asked<T>(actions: seq<Action<T>>, o: nat, i: nat) {
    exists k ::
      && 0 <= k < |actions| && actions[k] == Connect(o, i)
      && forall j | k < j < |actions| :: actions[j] != Disconnect(o, i) && actions[j] != DisconnectAll(o)
  }

  /** In every interleaving an output is connected to exactly the inputs it was connected to and has not been
      disconnected from since, whatever happened to the others. */
  lemma {:induction false} ConnectedAsAsked<T>(s0: System<T>, actions: seq<Action<T>>, o: nat, i: nat)
    requires Initial(s0) && o < |s0.outlets| && i < |s0.inlets|
    ensures SameWiring(s0, Run(s0, actions))
    ensures i in Run(s0, actions).outlets[o].targets <==> Asked(actions, o, i)
  {
    hide Next, Invariant;
    InitialInvariant(s0);
    RunInvariant(s0, actions);
    if actions != [] {
      var n := |actions| - 1;
      var front, a := actions[..n], actions[n];
      ConnectedAsAsked(s0, front, o, i);
      RunInvariant(s0, front);
      InvariantShape(Run(s0, front));
      RewireList(Run(s0, front), a, o, i);
      AskedLonger(front, a, o, i);
      assert actions == front + [a];
    }
  }

  lemma AskedLonger<T>(front: seq<Action<T>>, a: Action<T>, o: nat, i: nat)
    ensures Asked(front + [a], o, i) <==>
            a == Connect(o, i) || (Asked(front, o, i) && a != Disconnect(o, i) && a != DisconnectAll(o))
  {
    var all, n := front + [a], |front|;
    assert all[n] == a && forall k | 0 <= k < n :: all[k] == front[k];
    if a != Connect(o, i) && Asked(front, o, i) && a != Disconnect(o, i) && a != DisconnectAll(o) {
      var k :| 0 <= k < n && front[k] == Connect(o, i)
               && forall j | k < j < n :: front[j] != Disconnect(o, i) && front[j] != DisconnectAll(o);
      assert all[k] == Connect(o, i);
    }
  }

  lemma InvariantShape<T>(s: System<T>)
    requires Invariant(s)
    ensures Shape(s)
  {}

  /** A writer gets the input ahead of it only by beginning a write while it is on the list. */
  lemma NeverAhead<T>(s: System<T>, a: Action<T>, o: nat, i: nat, t: nat)
    requires !Ahead(s, t, o, i) && (o < |s.outlets| ==> i !in s.outlets[o].targets)
    ensures !Ahead(Next(s, a), t, o, i)
  {
    if a.Deliver? && CanDeliver(s, a.t) {
      var w := Current(s.writers[a.t]);
      assert Current(DeliverStep(s, a.t).writers[a.t]).targets == w.targets;
    } else if a.BeginWrite? || a.Notify? {
    } else {
      assert Next(s, a).writers == s.writers;
    }
  }

  lemma CutStep<T>(s: System<T>, a: Action<T>, o: nat, i: nat)
    requires Shape(s) && i < |s.inlets| && Cut(s, o, i) && a != Connect(o, i)
    ensures Cut(Next(s, a), o, i)
    ensures |Next(s, a).inlets| == |s.inlets| && !Heard(s, Next(s, a), o, i)
  {
    var s' := Next(s, a);
    GrowsStep(s, a);
    if o < |s.outlets| {
      ListStays(s, a, o, i);
    }
    forall t: nat ensures !Ahead(s', t, o, i) {
      NeverAhead(s, a, o, i, t);
    }
    if a.Deliver? && CanDeliver(s, a.t) {
      assert !Ahead(s, a.t, o, i);
    } else {
      QuietStep(s, a);
    }
  }

  lemma {:induction false} CutStaysCut<T>(s: System<T>, actions: seq<Action<T>>, o: nat, i: nat)
    requires Invariant(s) && i < |s.inlets| && Cut(s, o, i) && NeverConnects(actions, o, i)
    ensures Grows(s, Run(s, actions)) && Cut(Run(s, actions), o, i) && !Heard(s, Run(s, actions), o, i)
  {
    RunInvariant(s, actions);
    if actions != [] {
      var n := |actions| - 1;
      assert NeverConnects(actions[..n], o, i);
      CutStaysCut(s, actions[..n], o, i);
      var before, after := Run(s, actions[..n]), Run(s, actions);
      RunInvariant(s, actions[..n]);
      CutStep(before, actions[n], o, i);
      GrowsStep(before, actions[n]);
      forall k | |s.inlets[i].arrivals| <= k < |after.inlets[i].arrivals|
        ensures !FromOutlet(after, after.inlets[i].arrivals[k], o)
      {
        if k < |before.inlets[i].arrivals| {
          var item := before.inlets[i].arrivals[k];
          assert InletLogged(before, i) && Genuine(before, i, item, k);
          assert WriteGrows(before.writers[item.writer][item.n], after.writers[item.writer][item.n]);
        }
      }
    }
  }

  lemma RunAppend<T>(s: System<T>, actions: seq<Action<T>>, a: Action<T>)
    ensures Run(s, actions + [a]) == Next(Run(s, actions), a)
  {
    assert (actions + [a])[..|actions|] == actions;
  }

  ghost predicate Only<T>(actions: seq<Action<T>>, t: nat) {
    forall a | a in actions :: (a.Deliver? || a.Notify?) && a.t == t
  }

  /** By the schedule writer `t` alone has moved on, within the same write, to position `pos`. */
  ghost predicate Brings<T>(s: System<T>, actions: seq<Action<T>>, t: nat, count: nat, pos: nat) {
    var s' := Run(s, actions);
    && Only(actions, t)
    && t < |s'.writers| && |s'.writers[t]| == count && count > 0 && Current(s'.writers[t]).pos == pos
  }

  ghost predicate Brought<T(!new)>(s: System<T>, t: nat, count: nat, pos: nat) {
    exists actions: seq<Action<T>> :: Brings(s, actions, t, count, pos)
  }

  /** A schedule extended by the one or two steps by which writer `t` serves its next subscriber. */
  lemma ServeNext<T(!new)>(s: System<T>, actions: seq<Action<T>>, now: System<T>, t: nat)
    requires Invariant(now) && now == Run(s, actions) && Only(actions, t)
    requires t < |now.writers| && now.writers[t] != []
    requires Current(now.writers[t]).pos < |Current(now.writers[t]).targets|
    ensures Brought(s, t, |now.writers[t]|, Current(now.writers[t]).pos + 1)
  {
    hide Logged, AllSeen, Awake, Receive, Run;
    var w := Current(now.writers[t]);
    assert WriterOk(now, now.writers[t]) && WriteOk(now, w);
    var longer := actions;
    if w.owing {
      assert InletOk(|now.readers|, now.inlets[w.targets[w.pos - 1]]);
      RunAppend(s, longer, Notify(t));
      longer := longer + [Notify(t)];
    }
    assert CanDeliver(Run(s, longer), t);
    RunAppend(s, longer, Deliver(t));
    longer := longer + [Deliver(t)];
    assert Brings(s, longer, t, |now.writers[t]|, w.pos + 1);
  }

  /** The schedule that lets writer `t` finish up to and including position `k` of its snapshot. */
  lemma {:induction false} FinishUpTo<T(!new)>(s: System<T>, t: nat, k: nat)
    requires Invariant(s) && t < |s.writers| && s.writers[t] != []
    requires Current(s.writers[t]).pos <= k < |Current(s.writers[t]).targets|
    ensures Brought(s, t, |s.writers[t]|, k + 1)
    decreases k
  {
    hide Next, Invariant;
    var actions: seq<Action<T>> := [];
    if Current(s.writers[t]).pos < k {
      FinishUpTo(s, t, k - 1);
      actions :| Brings(s, actions, t, |s.writers[t]|, k);
    }
    RunInvariant(s, actions);
    var now := Run(s, actions);
    assert WriteGrows(Current(s.writers[t]), Current(now.writers[t]));
    ServeNext(s, actions, now, t);
  }

  ghost predicate Silenced<T(!new)>(s: System<T>, o: nat, i: nat)
    requires i < |s.inlets|
  {
    forall actions: seq<Action<T>> | NeverConnects(actions, o, i) ::
      |Run(s, actions).inlets| == |s.inlets| && !Heard(s, Run(s, actions), o, i)
  }

  /** A writer that still has the input ahead of it can go on and serve it. */
  lemma AheadIsHeard<T(!new)>(s: System<T>, t: nat, o: nat, i: nat)
    requires Invariant(s) && i < |s.inlets| && Ahead(s, t, o, i)
    ensures !Silenced(s, o, i)
  {
    hide Next;
    var w := Current(s.writers[t]);
    var n := |s.writers[t]| - 1;
    var k :| w.pos <= k < |w.targets| && w.targets[k] == i;
    FinishUpTo(s, t, k);
    var actions :| Brings(s, actions, t, |s.writers[t]|, k + 1);
    RunInvariant(s, actions);
    var s' := Run(s, actions);
    assert forall j | 0 <= j < |actions| :: actions[j] in actions;
    assert WriteGrows(w, s'.writers[t][n]);
    assert WriterOk(s, s.writers[t]) && WriteOk(s, w) && WriterOk(s', s'.writers[t]);
    assert !Served(w, i) by {
      forall j | 0 <= j < w.pos ensures w.targets[j] != i {}
    }
    assert Served(s'.writers[t][n], i) by {
      assert s'.writers[t][n].targets[k] == i;
    }
    LoggedOnce(s, i, t, n);
    LoggedOnce(s', i, t, n);
    forall j | 0 <= j < |s.inlets[i].arrivals| ensures !IsStamp(s'.inlets[i].arrivals[j], t, n) {
      assert s.inlets[i].arrivals[j] == s'.inlets[i].arrivals[j];
    }
    var j :| 0 <= j < |s'.inlets[i].arrivals| && IsStamp(s'.inlets[i].arrivals[j], t, n);
    assert FromOutlet(s', s'.inlets[i].arrivals[j], o);
    assert NeverConnects(actions, o, i) && Heard(s, s', o, i);
  }

  /** Once an input is off an output's list it hears from that output never again, in any
      interleaving that does not connect it back, if and only if no write of that output is in flight
      with the input still ahead of it. */
  lemma DisconnectSilences<T(!new)>(s0: System<T>, s: System<T>, o: nat, i: nat)
    requires Reachable(s0, s) && i < |s.inlets| && o < |s.outlets|
    requires i !in s.outlets[o].targets
    ensures Silenced(s, o, i) <==> forall t: nat :: !Ahead(s, t, o, i)
  {
    ReachableInvariant(s0, s);
    if t: nat :| Ahead(s, t, o, i) {
      AheadIsHeard(s, t, o, i);
    } else {
      assert Cut(s, o, i);
      forall more: seq<Action<T>> | NeverConnects(more, o, i)
        ensures |Run(s, more).inlets| == |s.inlets| && !Heard(s, Run(s, more), o, i)
      {
        CutStaysCut(s, more, o, i);
      }
    }
  }

  /** The promise does fail: wherever an input is connected and a writer idle, a write that begins
      before the disconnect still delivers after it has returned. */
  lemma LateDelivery<T(!new)>(s0: System<T>, s: System<T>, t: nat, o: nat, v: T, owned: bool, i: nat)
    requires Reachable(s0, s) && i < |s.inlets| && CanBegin(s, t, o) && i in s.outlets[o].targets
    ensures var after := Next(Next(s, BeginWrite(t, o, v, owned)), Disconnect(o, i));
            && |after.inlets| == |s.inlets| && |after.outlets| == |s.outlets|
            && i !in after.outlets[o].targets && !Silenced(after, o, i)
  {
    ReachableInvariant(s0, s);
    var begun := BeginStep(s, t, o, v, owned);
    StepInvariant(s, BeginWrite(t, o, v, owned));
    StepInvariant(begun, Disconnect(o, i));
    var after := OutletStep(begun, Disconnect(o, i));
    WithoutKeepsRest(s.outlets[o].targets, i);
    assert Current(after.writers[t]).targets == s.outlets[o].targets;
    AheadIsHeard(after, t, o, i);
  }

  /** One such run from the start: connect, begin a write, disconnect. */
  lemma DeliveredAfterDisconnect() returns (s0: System<int>, before: seq<Action<int>>)
    ensures Initial(s0) && |s0.inlets| == 1 && |s0.outlets| == 1
    ensures before == [Connect(0, 0), BeginWrite(0, 0, 7, false), Disconnect(0, 0)]
    ensures |Run(s0, before).inlets| == 1 && !Silenced(Run(s0, before), 0, 0)
  {
    hide Silenced;
    s0 := System([Outlet([], 0, 0, 0)], [Inlet(Fresh(LastValue), [], [], 0, 0, None)], [[]], []);
    var none: seq<Action<int>> := [];
    var one := none + [Connect(0, 0)];
    var two := one + [BeginWrite(0, 0, 7, false)];
    before := two + [Disconnect(0, 0)];
    RunAppend(s0, none, Connect(0, 0));
    RunAppend(s0, one, BeginWrite(0, 0, 7, false));
    RunAppend(s0, two, Disconnect(0, 0));
    var s := OutletStep(s0, Connect(0, 0));
    assert s.outlets[0].targets == [0];
    assert Run(s0, none) == s0 && Run(s0, one) == s;
    assert Reachable(s0, s);
    LateDelivery(s0, s, 0, 0, 7, false, 0);
  }
}
