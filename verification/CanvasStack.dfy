/** Which node of the canvas lies over which: the order remembered per group, and the z values. */
module CanvasStack {
  import opened Common

  // ----- Keeping and dropping by name -----

  /** The elements of `s` that are in `keep`, in order. */
  function Only(s: seq<string>, keep: set<string>): seq<string> {
    if s == [] then []
    else (if s[0] in keep then [s[0]] else []) + Only(s[1..], keep)
  }

  function Names(s: seq<string>): set<string> {
    set x | x in s
  }

  function Drop(s: seq<string>, gone: set<string>): seq<string> {
    Only(s, Names(s) - gone)
  }

  lemma {:induction false} OnlyIn(s: seq<string>, keep: set<string>, x: string)
    ensures x in Only(s, keep) <==> x in s && x in keep
  {
    if s != [] {
      OnlyIn(s[1..], keep, x);
      assert s == [s[0]] + s[1..];
    }
  }

  lemma OnlyNames(s: seq<string>, keep: set<string>)
    ensures Names(Only(s, keep)) == Names(s) * keep
  {
    forall x ensures x in Names(Only(s, keep)) <==> x in Names(s) * keep {
      OnlyIn(s, keep, x);
    }
  }

  lemma {:induction false} OnlyDistinct(s: seq<string>, keep: set<string>)
    requires Distinct(s)
    ensures Distinct(Only(s, keep))
  {
    if s != [] {
      OnlyDistinct(s[1..], keep);
      OnlyIn(s[1..], keep, s[0]);
      var rest := Only(s[1..], keep);
      assert s[0] !in s[1..];
      assert forall k | 0 <= k < |rest| :: rest[k] in rest;
    }
  }

  /** Only what concerns the names of `s` matters. */
  lemma {:induction false} OnlySame(s: seq<string>, a: set<string>, b: set<string>)
    requires forall x | x in s :: x in a <==> x in b
    ensures Only(s, a) == Only(s, b)
  {
    if s != [] {
      assert s[0] in s && forall x | x in s[1..] :: x in s;
      OnlySame(s[1..], a, b);
    }
  }

  lemma {:induction false} OnlyAll(s: seq<string>, keep: set<string>)
    requires forall x | x in s :: x in keep
    ensures Only(s, keep) == s
  {
    if s != [] {
      assert s[0] in s && forall x | x in s[1..] :: x in s;
      OnlyAll(s[1..], keep);
    }
  }

  lemma {:induction false} OnlyNone(s: seq<string>, keep: set<string>)
    requires forall x | x in s :: x !in keep
    ensures Only(s, keep) == []
  {
    if s != [] {
      assert s[0] in s && forall x | x in s[1..] :: x in s;
      OnlyNone(s[1..], keep);
    }
  }

  lemma {:induction false} OnlyConcat(s: seq<string>, t: seq<string>, keep: set<string>)
    ensures Only(s + t, keep) == Only(s, keep) + Only(t, keep)
  {
    if s == [] {
      assert s + t == t;
    } else {
      OnlyConcat(s[1..], t, keep);
      assert (s + t)[1..] == s[1..] + t;
      var head := if s[0] in keep then [s[0]] else [];
      assert Only(s + t, keep) == head + Only(s[1..] + t, keep);
      assert head + (Only(s[1..], keep) + Only(t, keep)) == head + Only(s[1..], keep) + Only(t, keep);
    }
  }

  lemma {:induction false} OnlyTwice(s: seq<string>, a: set<string>, b: set<string>)
    ensures Only(Only(s, a), b) == Only(s, a * b)
  {
    if s != [] {
      OnlyTwice(s[1..], a, b);
      var rest := Only(s[1..], a);
      if s[0] in a {
        assert ([s[0]] + rest)[1..] == rest;
      } else {
        assert Only(s, a) == rest;
      }
    }
  }

  // ----- The orders -----

  /** The nodes front to back: the remembered ones first, in the remembered order, then the rest as they
      stand. */
  function Stacked(order: seq<string>, nodes: seq<string>): seq<string> {
    Only(order, Names(nodes)) + Drop(nodes, Names(order))
  }

  /** The remembered order once the nodes of `moving` are grabbed: they come first, among themselves as
      they lay. */
  function Raised(order: seq<string>, nodes: seq<string>, moving: set<string>): seq<string> {
    var lifted := Only(nodes, moving);
    lifted + Drop(order, Names(lifted))
  }

  lemma ConcatDistinct(a: seq<string>, b: seq<string>)
    requires Distinct(a) && Distinct(b) && forall x | x in a :: x !in b
    ensures Distinct(a + b)
  {
    forall i, j | 0 <= i < |a| && 0 <= j < |b| ensures a[i] != b[j] {
      assert a[i] in a && b[j] in b;
    }
  }

  lemma StackedDistinct(order: seq<string>, nodes: seq<string>)
    requires Distinct(order) && Distinct(nodes)
    ensures Distinct(Stacked(order, nodes)) && Names(Stacked(order, nodes)) == Names(nodes)
  {
    var a, b := Only(order, Names(nodes)), Drop(nodes, Names(order));
    OnlyDistinct(order, Names(nodes));
    OnlyDistinct(nodes, Names(nodes) - Names(order));
    OnlyNames(order, Names(nodes));
    OnlyNames(nodes, Names(nodes) - Names(order));
    forall x | x in a ensures x !in b {
      assert x in Names(a) && (x in b ==> x in Names(b));
    }
    ConcatDistinct(a, b);
    forall x ensures x in Names(a + b) <==> x in Names(nodes) {
      assert x in Names(a + b) <==> x in Names(a) || x in Names(b);
    }
  }

  lemma RaisedDistinct(order: seq<string>, nodes: seq<string>, moving: set<string>)
    requires Distinct(order) && Distinct(nodes)
    ensures Distinct(Raised(order, nodes, moving))
    ensures Names(Raised(order, nodes, moving)) == Names(order) + (Names(nodes) * moving)
  {
    var a := Only(nodes, moving);
    var b := Drop(order, Names(a));
    OnlyDistinct(nodes, moving);
    OnlyDistinct(order, Names(order) - Names(a));
    OnlyNames(nodes, moving);
    OnlyNames(order, Names(order) - Names(a));
    forall x | x in a ensures x !in b {
      assert x in Names(a) && (x in b ==> x in Names(b));
    }
    ConcatDistinct(a, b);
    forall x ensures x in Names(a + b) <==> x in Names(order) + (Names(nodes) * moving) {
      assert x in Names(a + b) <==> x in Names(a) || x in Names(b);
    }
  }

  /** Stacking by the order the nodes already lie in changes nothing. */
  lemma StackedAgain(order: seq<string>, nodes: seq<string>)
    requires Distinct(order) && Distinct(nodes)
    ensures Stacked(order, Stacked(order, nodes)) == Stacked(order, nodes)
  {
    hide Only, Distinct;
    var all, known := Names(nodes), Names(order);
    var front, rest := Only(order, all), Drop(nodes, known);
    StackedDistinct(order, nodes);
    OnlyNames(order, all);
    OnlyNames(nodes, all - known);
    OnlyConcat(front, rest, all - known);
    assert forall x | x in front :: x in Names(front);
    assert forall x | x in rest :: x in Names(rest);
    OnlyNone(front, all - known);
    OnlyAll(rest, all - known);
  }

  /** What of the raised order is on the canvas: the lifted nodes, then the remembered others. */
  lemma RaisedShown(order: seq<string>, nodes: seq<string>, moving: set<string>)
    requires Distinct(order) && Distinct(nodes)
    ensures Only(Raised(order, nodes, moving), Names(nodes)) ==
            Only(nodes, moving) + Only(order, Names(nodes) - moving)
  {
    hide Only;
    var all := Names(nodes);
    var lifted := Only(nodes, moving);
    OnlyNames(nodes, moving);
    OnlyConcat(lifted, Drop(order, Names(lifted)), all);
    assert forall x | x in lifted :: x in Names(lifted);
    OnlyAll(lifted, all);
    OnlyTwice(order, Names(order) - Names(lifted), all);
    OnlySame(order, (Names(order) - Names(lifted)) * all, all - moving);
  }

  /** What it does not name: the nodes neither remembered nor grabbed. */
  lemma RaisedRest(order: seq<string>, nodes: seq<string>, moving: set<string>)
    requires Distinct(order) && Distinct(nodes)
    ensures Drop(nodes, Names(Raised(order, nodes, moving))) == Only(nodes, Names(nodes) - Names(order) - moving)
  {
    hide Only, Raised;
    RaisedDistinct(order, nodes, moving);
    OnlySame(nodes, Names(nodes) - Names(Raised(order, nodes, moving)), Names(nodes) - Names(order) - moving);
  }

  /** The nodes that were not grabbed, split by the old order. */
  lemma UnmovedSplit(order: seq<string>, nodes: seq<string>, moving: set<string>)
    requires Stacked(order, nodes) == nodes
    ensures Drop(nodes, moving) ==
            Only(order, Names(nodes) - moving) + Only(nodes, Names(nodes) - Names(order) - moving)
  {
    hide Only;
    var all, known := Names(nodes), Names(order);
    OnlyConcat(Only(order, all), Only(nodes, all - known), all - moving);
    OnlyTwice(order, all, all - moving);
    OnlyTwice(nodes, all - known, all - moving);
    assert all * (all - moving) == all - moving;
    assert (all - known) * (all - moving) == all - known - moving;
  }

  /** Raising is a stable partition: the grabbed nodes come to the front in the order they lay in, the
      others follow in the order they lay in. */
  lemma RaisingIsStable(order: seq<string>, nodes: seq<string>, moving: set<string>)
    requires Distinct(order) && Distinct(nodes) && Stacked(order, nodes) == nodes
    ensures Stacked(Raised(order, nodes, moving), nodes) == Only(nodes, moving) + Drop(nodes, moving)
  {
    hide Only, Drop, Raised, Distinct;
    RaisedShown(order, nodes, moving);
    RaisedRest(order, nodes, moving);
    UnmovedSplit(order, nodes, moving);
  }

  /** The order a rebuild leaves: each name not seen at the last build goes to the front, the last of
      them foremost. */
  function Renewed(order: seq<string>, names: seq<string>, seen: set<string>): seq<string> {
    if names == [] then order
    else
      var n := |names| - 1;
      var before := Renewed(order, names[..n], seen);
      if names[n] in seen then before else [names[n]] + Drop(before, {names[n]})
  }

  lemma ToFront(order: seq<string>, name: string)
    requires Distinct(order)
    ensures Distinct([name] + Drop(order, {name}))
    ensures Names([name] + Drop(order, {name})) == Names(order) + {name}
  {
    hide Only;
    OnlyDistinct(order, Names(order) - {name});
    OnlyNames(order, Names(order) - {name});
    var rest := Drop(order, {name});
    assert name !in Names(rest);
    ConcatDistinct([name], rest);
    assert Names([name] + rest) == {name} + Names(rest);
  }

  lemma {:induction false} RenewedDistinct(order: seq<string>, names: seq<string>, seen: set<string>)
    requires Distinct(order)
    ensures Distinct(Renewed(order, names, seen))
    ensures Names(Renewed(order, names, seen)) == Names(order) + (Names(names) - seen)
  {
    hide Only;
    if names != [] {
      var n := |names| - 1;
      RenewedDistinct(order, names[..n], seen);
      var before := Renewed(order, names[..n], seen);
      assert Names(names) == Names(names[..n]) + {names[n]} by {
        assert names == names[..n] + [names[n]];
      }
      if names[n] !in seen {
        ToFront(before, names[n]);
      }
    }
  }

  lemma DropLast(front: seq<string>, last: string, seen: set<string>)
    ensures Drop(front + [last], seen) == Drop(front, seen) + (if last in seen then [] else [last])
    ensures Names(front + [last]) == Names(front) + {last}
  {
    var keep := Names(front + [last]) - seen;
    OnlyConcat(front, [last], keep);
    OnlySame(front, keep, Names(front) - seen);
  }

  lemma NoNewcomers(order: seq<string>, gone: set<string>)
    ensures Reversed(Drop([], gone)) + Drop(order, Names([]) - gone) == order
  {
    assert Names([]) - gone == {};
    OnlyAll(order, Names(order) - {});
  }

  lemma LastIsNew(names: seq<string>)
    requires Distinct(names) && names != []
    ensures var n := |names| - 1;
            names == names[..n] + [names[n]] && Distinct(names[..n]) && names[n] !in names[..n]
  {}

  /** Newcomers end up over everything else, the last of them foremost. */
  lemma {:induction false} NewcomersInFront(order: seq<string>, names: seq<string>, seen: set<string>)
    requires Distinct(order) && Distinct(names)
    ensures Renewed(order, names, seen) == Reversed(Drop(names, seen)) + Drop(order, Names(names) - seen)
  {
    hide Drop, Names, Reversed, Distinct;
    if names == [] {
      NoNewcomers(order, seen);
    } else {
      LastIsNew(names);
      var n := |names| - 1;
      var front, last := names[..n], names[n];
      NewcomersInFront(order, front, seen);
      DropLast(front, last, seen);
      if last in seen {
        assert Names(front) + {last} - seen == Names(front) - seen;
        assert Drop(front, seen) + [] == Drop(front, seen);
      } else {
        NewcomerStep(order, front, last, seen);
        assert Names(front) + {last} - seen == Names(front) - seen + {last};
      }
    }
  }

  lemma NewcomerStep(order: seq<string>, front: seq<string>, last: string, seen: set<string>)
    requires last !in front && last !in seen
    ensures var gone := Names(front) - seen;
            [last] + Drop(Reversed(Drop(front, seen)) + Drop(order, gone), {last}) ==
            Reversed(Drop(front, seen) + [last]) + Drop(order, gone + {last})
  {
    hide Only;
    var newest := Drop(front, seen);
    OnlyNames(front, Names(front) - seen);
    ToFrontOf(newest, order, Names(front) - seen, last);
  }

  /** One more newcomer: it goes before the ones there are, and out of the old order. */
  lemma ToFrontOf(newest: seq<string>, order: seq<string>, gone: set<string>, last: string)
    requires last !in Names(newest)
    ensures Drop(Reversed(newest) + Drop(order, gone), {last}) == Reversed(newest) + Drop(order, gone + {last})
  {
    hide Only;
    var a, b := Reversed(newest), Drop(order, gone);
    ReversedNames(newest);
    OnlyConcat(a, b, Names(a + b) - {last});
    assert forall x | x in a :: x in Names(a) && x in a + b;
    OnlyAll(a, Names(a + b) - {last});
    OnlyNames(order, Names(order) - gone);
    OnlyTwice(order, Names(order) - gone, Names(a + b) - {last});
    assert forall x | x in b :: x in Names(b) && x in a + b;
    assert forall x | x in order && x !in gone :: x in Names(b);
    OnlySame(order, (Names(order) - gone) * (Names(a + b) - {last}), Names(order) - (gone + {last}));
  }

  function Reversed(s: seq<string>): seq<string> {
    if s == [] then [] else [s[|s| - 1]] + Reversed(s[..|s| - 1])
  }

  lemma {:induction false} ReversedNames(s: seq<string>)
    ensures Names(Reversed(s)) == Names(s)
    ensures Distinct(s) ==> Distinct(Reversed(s))
  {
    if s != [] {
      var n := |s| - 1;
      ReversedNames(s[..n]);
      assert s == s[..n] + [s[n]];
      var rest := Reversed(s[..n]);
      assert Names([s[n]] + rest) == {s[n]} + Names(rest);
      if Distinct(s) {
        assert s[n] !in s[..n];
        assert s[n] !in Names(rest);
        ConcatDistinct([s[n]], rest);
      }
    }
  }

  // ----- The scene -----

  /** What is remembered of a group, nothing where there is no memory of it. */
  function OrderOf(raised: map<string, seq<string>>, group: string): (r: seq<string>)
    ensures group in raised ==> r == raised[group]
    ensures group !in raised ==> r == []
  {
    if group in raised then raised[group] else []
  }

  /** The part of the canvas that decides which node lies over which. `nodes` are the names of the node
      items as the scene lists them, front to back; `z` is what each was last given. */
  class Scene {
    var group: string
    var raised: map<string, seq<string>>
    var built: map<string, set<string>>
    var nodes: seq<string>
    var z: map<string, int>

    ghost function Order(): seq<string>
      reads this
    {
      OrderOf(raised, group)
    }

    /** The remembered orders hold no name twice, and the nodes lie as the order of the group says. */
    ghost predicate Valid()
      reads this
    {
      && (forall g | g in raised :: Distinct(raised[g]))
      && Distinct(nodes) && Stacked(Order(), nodes) == nodes
    }

    /** The z values are -1, -2 and so on down the pile, one for each node. */
    ghost predicate Layered()
      reads this
    {
      z.Keys == Names(nodes) && forall k | 0 <= k < |nodes| :: z[nodes[k]] == -1 - k
    }

    constructor (group: string)
      ensures Valid() && Layered() && this.group == group && raised == map[] && built == map[] && nodes == []
    {
      this.group := group;
      raised, built, nodes, z := map[], map[], [], map[];
    }

    /** Drops every memory; the items stay as they are until the next rebuild. */
    method ForgetStacking()
      requires Valid()
      modifies this`raised, this`built
      ensures Valid() && raised == map[] && built == map[]
    {
      hide Only, Drop;
      raised, built := map[], map[];
      TakenNone(nodes);
      assert [] + nodes == nodes;
    }

    /** Splits the nodes by the remembered order and gives each its z. */
    method ApplyStacking()
      requires (forall g | g in raised :: Distinct(raised[g])) && Distinct(nodes)
      modifies this`nodes, this`z
      ensures nodes == Stacked(Order(), old(nodes)) && Valid() && Layered()
    {
      var order := OrderOf(raised, group);
      StackedDistinct(order, nodes);
      StackedAgain(order, nodes);
      nodes := Pile(order, nodes);
      z := Layer(nodes);
    }

    /** A rebuild, of the group on screen or of the one just entered: the items are made afresh, the last
        child on top, and newcomers are put in front of the remembered order - except at the group's
        first build, which only takes note. */
    method Rebuild(entered: string, names: seq<string>)
      requires Valid() && Distinct(names)
      modifies this
      ensures Valid() && Layered() && group == entered && Names(nodes) == Names(names)
      ensures nodes == Stacked(Order(), Reversed(names))
      ensures built == old(built)[entered := Names(names)]
      ensures entered !in old(built) ==> raised == old(raised)
      ensures entered in old(built) ==>
                raised == old(raised)[entered := Renewed(OrderOf(old(raised), entered), names, old(built)[entered])]
    {
      group := entered;
      RaiseNewNodes(names);
      ReversedNames(names);
      nodes := Reversed(names);
      StackedDistinct(OrderOf(raised, group), nodes);
      ApplyStacking();
    }

    method RaiseNewNodes(names: seq<string>)
      requires forall g | g in raised :: Distinct(raised[g])
      modifies this`raised, this`built
      ensures forall g | g in raised :: Distinct(raised[g])
      ensures built == old(built)[group := Names(names)]
      ensures group !in old(built) ==> raised == old(raised)
      ensures group in old(built) ==>
                raised == old(raised)[group := Renewed(OrderOf(old(raised), group), names, old(built)[group])]
    {
      if group !in built {
        built := built[group := set x | x in names];
        return;
      }
      var seen := built[group];
      var order := OrderOf(raised, group);
      ghost var was := order;
      for i := 0 to |names|
        invariant order == Renewed(was, names[..i], seen)
      {
        assert names[..i + 1][..i] == names[..i];
        if names[i] !in seen {
          order := [names[i]] + Drop(order, {names[i]});
        }
      }
      assert names[..|names|] == names;
      RenewedDistinct(was, names, seen);
      raised := raised[group := order];
      built := built[group := set x | x in names];
    }

    /** Nodes have been grabbed: they come to the front, the pile they made unshuffled, and nothing else
        changes places. */
    method RaiseMoving(moving: set<string>)
      requires Valid() && Layered() && moving <= Names(nodes)
      modifies this`raised, this`nodes, this`z
      ensures Valid() && Layered()
      ensures nodes == Only(old(nodes), moving) + Drop(old(nodes), moving)
      ensures forall g | g != group && g in old(raised) :: g in raised && raised[g] == old(raised)[g]
      ensures if moving == {} then raised == old(raised)
              else raised == old(raised)[group := Raised(OrderOf(old(raised), group), old(nodes), moving)]
    {
      hide Only, Stacked;
      var order := OrderOf(raised, group);
      RaisingIsStable(order, nodes, moving);
      RaisedDistinct(order, nodes, moving);
      if moving == {} {
        OnlyNone(nodes, {});
        OnlyAll(nodes, Names(nodes) - {});
        return;
      }
      var lifted := Lift(nodes, moving);
      raised := raised[group := lifted + Drop(order, set x | x in lifted)];
      ApplyStacking();
    }
  }

  /** The nodes named by the order, in its order, then those it left. */
  method Pile(order: seq<string>, nodes: seq<string>) returns (pile: seq<string>)
    requires Distinct(order)
    ensures pile == Stacked(order, nodes)
  {
    hide Only, Drop;
    var front: seq<string>, left := [], nodes;
    TakenNone(nodes);
    for i := 0 to |order|
      invariant front == Only(order[..i], Names(nodes))
      invariant left == Drop(nodes, Names(order[..i]))
    {
      OnlyStep(order, Names(nodes), i);
      TakenOut(nodes, order, i);
      if order[i] in left {
        front := front + [order[i]];
        left := Drop(left, {order[i]});
      }
    }
    assert order[..|order|] == order;
    pile := front + left;
  }

  lemma TakenNone(nodes: seq<string>)
    ensures Only([], Names(nodes)) == [] && Drop(nodes, Names([])) == nodes
  {
    OnlyAll(nodes, Names(nodes) - Names([]));
  }

  lemma OnlyStep(s: seq<string>, keep: set<string>, i: nat)
    requires i < |s|
    ensures Only(s[..i + 1], keep) == Only(s[..i], keep) + (if s[i] in keep then [s[i]] else [])
  {
    assert s[..i + 1] == s[..i] + [s[i]];
    OnlyConcat(s[..i], [s[i]], keep);
  }

  /** The z values given down a pile. */
  method Layer(pile: seq<string>) returns (z: map<string, int>)
    requires Distinct(pile)
    ensures z.Keys == Names(pile) && forall k | 0 <= k < |pile| :: z[pile[k]] == -1 - k
  {
    z := map[];
    for k := 0 to |pile|
      invariant z.Keys == Names(pile[..k])
      invariant forall j | 0 <= j < k :: pile[j] in z && z[pile[j]] == -1 - j
    {
      assert pile[..k + 1] == pile[..k] + [pile[k]];
      z := z[pile[k] := -1 - k];
    }
    assert pile[..|pile|] == pile;
  }

  /** The grabbed ones among the nodes, as they lie. */
  method Lift(nodes: seq<string>, moving: set<string>) returns (lifted: seq<string>)
    ensures lifted == Only(nodes, moving)
  {
    lifted := [];
    for i := 0 to |nodes|
      invariant lifted == Only(nodes[..i], moving)
    {
      assert nodes[..i + 1] == nodes[..i] + [nodes[i]];
      OnlyConcat(nodes[..i], [nodes[i]], moving);
      if nodes[i] in moving {
        lifted := lifted + [nodes[i]];
      }
    }
    assert nodes[..|nodes|] == nodes;
  }

  /** Taking the i-th remembered name out of what is left of the nodes. */
  lemma TakenOut(nodes: seq<string>, order: seq<string>, i: nat)
    requires i < |order|
    ensures var left := Drop(nodes, Names(order[..i]));
            Drop(nodes, Names(order[..i + 1])) == if order[i] in left then Drop(left, {order[i]}) else left
    ensures Distinct(order) ==> (order[i] in Drop(nodes, Names(order[..i])) <==> order[i] in nodes)
  {
    hide Only;
    var before, after := Names(order[..i]), Names(order[..i + 1]);
    var left := Drop(nodes, before);
    assert order[..i + 1] == order[..i] + [order[i]];
    assert after == before + {order[i]};
    OnlyIn(nodes, Names(nodes) - before, order[i]);
    OnlyNames(nodes, Names(nodes) - before);
    OnlyTwice(nodes, Names(nodes) - before, Names(left) - {order[i]});
    OnlySame(nodes, (Names(nodes) - before) * (Names(left) - {order[i]}), Names(nodes) - after);
    if order[i] !in left {
      OnlySame(nodes, Names(nodes) - before, Names(nodes) - after);
    }
    if Distinct(order) {
      assert order[i] !in order[..i] by {
        forall k | 0 <= k < i ensures order[..i][k] != order[i] {}
      }
    }
  }
}
