/** Carrying the keys no field declares from the document that was loaded into the one being saved. */
module ConfigCarry {
  import opened Common
  import opened ConfigNode
  import opened ConfigShape

  // ----- The merge -----

  /** What `into` holds after the keys of `from` were gone through. Undeclared keys are copied, nested
      objects merged, arrays of objects merged position by position; everything else stays. The
      elements of an array of objects carry the declarations of their prototype. */
  function Carry(shape: Shape, from: Node, into: Node): Node
    decreases from, 1, 0
  {
    if from.Obj? && into.Obj? then CarryUpTo(shape, from, into, |from.entries|) else into
  }

  function CarryUpTo(shape: Shape, from: Node, into: Node, n: nat): (r: Node)
    requires from.Obj? && into.Obj? && n <= |from.entries|
    ensures r.Obj?
    decreases from, 0, n
  {
    if n == 0 then into
    else CarryKey(shape, from.entries[n - 1], CarryUpTo(shape, from, into, n - 1))
  }

  function CarryKey(shape: Shape, pair: Pair, into: Node): (r: Node)
    requires into.Obj?
    ensures r.Obj?
    decreases pair
  {
    var stays := Settled(shape, pair, Find(into, pair.key));
    if stays.Some? then Put(into, pair.key, stays.value) else into
  }

  /** What goes under one key of the merged object, given what is there; nothing when it is to stay. */
  function Settled(shape: Shape, pair: Pair, held: Option<Node>): Option<Node>
    decreases pair, 0
  {
    var d := Declared(shape.decls, pair.key);
    if d.None? then Some(pair.value) else
    match shape.decls[d.value].kind
    case Group(inner) =>
      var merged := Carry(inner, pair.value, if held.Some? then held.value else EMPTY_OBJECT);
      if Entries(merged) == [] then None else Some(merged)
    case Objects(element) =>
      if held.Some? && held.value.Arr? && pair.value.Arr? then Some(CarryItems(element, pair.value, held.value))
      else None
    case _ => None
  }

  function CarryItems(element: Shape, from: Node, into: Node): (r: Node)
    requires from.Arr? && into.Arr?
    ensures r.Arr? && |r.items| == |into.items|
    decreases from, 0, 0
  {
    Arr(seq(|into.items|, i requires 0 <= i < |into.items| =>
      if i < |from.items| then Carry(element, from.items[i], into.items[i]) else into.items[i]))
  }

  /** The merge as the editor runs it: one pass over the loaded document's keys, assigning in place. */
  method CarryUnknown(shape: Shape, from: Node, into: Node) returns (r: Node)
    ensures r == Carry(shape, from, into)
    decreases from, 1
  {
    r := into;
    if !from.Obj? || !into.Obj? {
      return;
    }
    for n := 0 to |from.entries|
      invariant r.Obj? && r == CarryUpTo(shape, from, into, n)
    {
      var pair := from.entries[n];
      assert CarryUpTo(shape, from, into, n + 1) == CarryKey(shape, pair, r);
      var d := Declared(shape.decls, pair.key);
      if d.None? {
        r := Put(r, pair.key, pair.value);
        continue;
      }
      var kind := shape.decls[d.value].kind;
      var held := Find(r, pair.key);
      if kind.Group? {
        var merged := CarryUnknown(kind.inner, pair.value, if held.None? then EMPTY_OBJECT else held.value);
        if |Entries(merged)| != 0 {
          r := Put(r, pair.key, merged);
        }
        continue;
      }
      if !kind.Objects? || held.None? || !held.value.Arr? || !pair.value.Arr? {
        continue;
      }
      var items := CarryArray(kind.element, pair.value, held.value);
      r := Put(r, pair.key, items);
    }
  }

  method CarryArray(element: Shape, from: Node, into: Node) returns (r: Node)
    requires from.Arr? && into.Arr?
    ensures r == CarryItems(element, from, into)
    decreases from, 0
  {
    var items := into.items;
    var count := if |items| < |from.items| then |items| else |from.items|;
    for i := 0 to count
      invariant |items| == |into.items|
      invariant forall j | 0 <= j < |items| ::
                  items[j] == if j < i then Carry(element, from.items[j], into.items[j]) else into.items[j]
    {
      var merged := CarryUnknown(element, from.items[i], items[i]);
      items := items[i := merged];
    }
    r := Arr(items);
    assert r.items == CarryItems(element, from, into).items;
  }

  // ----- Key by key -----

  /** The merge, said by what stands under a key: each key of `from` is settled once, against what
      `into` held; a key that is not in `from` is untouched. */
  lemma {:induction false} CarryUpToFind(shape: Shape, from: Node, into: Node, n: nat, key: string)
    requires from.Obj? && into.Obj? && n <= |from.entries| && DistinctKeys(from.entries)
    ensures Find(CarryUpTo(shape, from, into, n), key) ==
            var at := IndexOf(from.entries, key);
            var settled :=
              if at.Some? && at.value < n then Settled(shape, from.entries[at.value], Find(into, key)) else None;
            if settled.Some? then settled else Find(into, key)
  {
    hide Settled, PutEntry, Lookup, IndexOf;
    if n > 0 {
      var pair := from.entries[n - 1];
      var before := CarryUpTo(shape, from, into, n - 1);
      IndexOfAt(from.entries, n - 1);
      CarryUpToFind(shape, from, into, n - 1, pair.key);
      assert Find(before, pair.key) == Find(into, pair.key);
      var stays := Settled(shape, pair, Find(before, pair.key));
      if key != pair.key {
        CarryUpToFind(shape, from, into, n - 1, key);
      }
      if stays.Some? {
        LookupPut(Entries(before), pair.key, stays.value, key);
      }
    }
  }

  lemma {:induction false} IndexOfAt(entries: seq<Pair>, i: nat)
    requires DistinctKeys(entries) && i < |entries|
    ensures IndexOf(entries, entries[i].key) == Some(i)
  {
    if i > 0 {
      IndexOfAt(entries[1..], i - 1);
    }
  }

  lemma CarryFind(shape: Shape, from: Node, into: Node, key: string)
    requires from.Obj? && into.Obj? && DistinctKeys(from.entries)
    ensures Find(Carry(shape, from, into), key) ==
            var found := Find(from, key);
            var settled := if found.Some? then Settled(shape, Pair(key, found.value), Find(into, key)) else None;
            if settled.Some? then settled else Find(into, key)
  {
    hide Settled;
    CarryUpToFind(shape, from, into, |from.entries|, key);
    var at := IndexOf(from.entries, key);
    if at.Some? {
      assert from.entries[at.value] == Pair(key, from.entries[at.value].value);
    }
  }
}
