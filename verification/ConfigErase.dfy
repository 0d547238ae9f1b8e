/** What erasing at an address of a document means for the config that is loaded from it. */
module ConfigErase {
  import opened Common
  import opened ConfigNode
  import opened ConfigShape
  import opened ConfigMisfits
  import opened ConfigRoundTrip
  import opened ConfigAddress
  import opened ConfigRows

  // ----- Erasing, one step at a time -----

  /** Below the first step, erasing is erasing in the child. */
  lemma EraseUnfolds(n: Node, steps: seq<Step>)
    requires |steps| > 1
    ensures EraseAt(n, steps) ==
            var child := Child(n, steps[0]);
            if child.None? || !EraseAt(child.value, steps[1..]).1 then (n, false)
            else (SetChild(n, steps[0], EraseAt(child.value, steps[1..]).0), true)
  {
    hide EraseStep;
    var k := |steps| - 1;
    var front, below := steps[..k], steps[1..];
    assert front[1..] == below[..k - 1] && below[k - 1] == steps[k];
    EraseAnswers(n, steps);
    var child := Child(n, steps[0]);
    if child.Some? {
      EraseAnswers(child.value, below);
    }
  }

  /** A key takes nothing out of what is no object. */
  lemma EraseNothing(n: Node, steps: seq<Step>)
    requires !n.Obj? && steps != [] && steps[0].Key?
    ensures EraseAt(n, steps) == (n, false)
  {
    if |steps| > 1 {
      EraseUnfolds(n, steps);
    } else {
      assert steps[..0] == [];
    }
  }

  /** Under the key it goes through, an erasure leaves what was there with the rest of the address
      erased, or nothing at all; every other key is untouched. */
  lemma EraseFind(n: Node, steps: seq<Step>, key: string)
    requires UniqueKeys(n) && steps != [] && steps[0].Key?
    ensures Find(EraseAt(n, steps).0, key) ==
            if key == steps[0].key then Rest(Find(n, key), steps[1..]) else Find(n, key)
    ensures EraseAt(n, steps).0.Obj? == n.Obj?
    ensures EraseAt(n, steps).1 <==> GoesOn(Find(n, steps[0].key), steps[1..])
  {
    if !n.Obj? {
      EraseNothing(n, steps);
    } else if |steps| > 1 {
      EraseFindBelow(n, steps, key);
    } else {
      assert steps[..0] == [];
      var at := IndexOf(n.entries, steps[0].key);
      if at.Some? {
        LookupWithout(n.entries, at.value, key);
      }
    }
  }

  lemma EraseFindBelow(n: Node, steps: seq<Step>, key: string)
    requires n.Obj? && |steps| > 1 && steps[0].Key?
    ensures Find(EraseAt(n, steps).0, key) ==
            if key == steps[0].key then Rest(Find(n, key), steps[1..]) else Find(n, key)
    ensures EraseAt(n, steps).0.Obj?
    ensures EraseAt(n, steps).1 <==> GoesOn(Find(n, steps[0].key), steps[1..])
  {
    hide EraseAt;
    EraseUnfolds(n, steps);
    var child := Child(n, steps[0]);
    if child.Some? {
      var left := EraseAt(child.value, steps[1..]);
      EraseAnswers(child.value, steps[1..]);
      if left.1 {
        LookupPut(n.entries, steps[0].key, left.0, key);
      }
    }
  }

  /** What is left under a key that the address goes through. */
  function Rest(found: Option<Node>, steps: seq<Step>): Option<Node> {
    if steps == [] || found.None? then None else Some(EraseAt(found.value, steps).0)
  }

  /** There is something to remove further along the address, or right here. */
  predicate GoesOn(found: Option<Node>, steps: seq<Step>) {
    found.Some? && (steps == [] || EraseAt(found.value, steps).1)
  }

  /** An erasure through an array drops the element or erases in it. */
  lemma EraseItem(n: Node, steps: seq<Step>)
    requires n.Arr? && steps != [] && steps[0].Index? && steps[0].i < |n.items|
    ensures var i := steps[0].i;
            EraseAt(n, steps).0 ==
            if steps[1..] == [] then Arr(n.items[..i] + n.items[i + 1..])
            else Arr(n.items[i := EraseAt(n.items[i], steps[1..]).0])
    ensures EraseAt(n, steps).1 <==> GoesOn(Some(n.items[steps[0].i]), steps[1..])
  {
    if |steps| > 1 {
      EraseUnfolds(n, steps);
      EraseAnswers(n.items[steps[0].i], steps[1..]);
    } else {
      assert steps[..0] == [];
    }
  }

  // ----- On the values -----

  /** The steps name a scalar field or an element of an array: what the editor's erasures address. */
  ghost predicate Addresses(shape: Shape, vals: Values, steps: seq<Step>)
    requires Fits(shape, vals)
    decreases |steps|, 0
  {
    && steps != [] && steps[0].Key?
    && var d := Declared(shape.decls, steps[0].key);
       d.Some? && AddressesIn(shape.decls[d.value].kind, vals.cells[d.value], steps[1..])
  }

  ghost predicate AddressesIn(kind: Kind, cell: Cell, steps: seq<Step>)
    requires FitsCell(kind, cell)
    decreases |steps|, 1
  {
    match kind
    case Leaf(_, _, _) => steps == []
    case Group(inner) => steps != [] && steps[0].Key? && Addresses(inner, cell.inner, steps)
    case Leaves(_, _, _) => |steps| == 1 && steps[0].Index? && steps[0].i < |cell.items|
    case Objects(element) =>
      && steps != [] && steps[0].Index? && steps[0].i < |cell.elements|
      && (steps[1..] == [] || Addresses(element, cell.elements[steps[0].i], steps[1..]))
  }

  /** The values without what the steps name: a field back at its declaration, an array one shorter. */
  function Erased(shape: Shape, vals: Values, steps: seq<Step>): (r: Values)
    requires Fits(shape, vals) && Addresses(shape, vals, steps)
    ensures Fits(shape, r)
    decreases |steps|, 0
  {
    var d := Declared(shape.decls, steps[0].key).value;
    Values(vals.cells[d := ErasedIn(shape.decls[d].kind, vals.cells[d], steps[1..])])
  }

  function ErasedIn(kind: Kind, cell: Cell, steps: seq<Step>): (r: Cell)
    requires FitsCell(kind, cell) && AddressesIn(kind, cell, steps)
    ensures FitsCell(kind, r)
    decreases |steps|, 1
  {
    match kind
    case Leaf(_, _, _) => FreshCell(kind)
    case Group(inner) => GroupCell(Erased(inner, cell.inner, steps))
    case Leaves(_, _, _) => cell.(items := cell.items[..steps[0].i] + cell.items[steps[0].i + 1..])
    case Objects(element) =>
      var i := steps[0].i;
      if steps[1..] == [] then cell.(elements := cell.elements[..i] + cell.elements[i + 1..])
      else cell.(elements := cell.elements[i := Erased(element, cell.elements[i], steps[1..])])
  }

  /** Where a row's steps lead to a scalar field, or through an element's row, they address it. */
  lemma {:induction false} RowAddresses(shape: Shape, vals: Values, hops: seq<Hop>, steps: seq<Step>)
    requires Fits(shape, vals) && steps != []
    requires var c := Walk(InConfig(shape, vals, hops), steps);
             if steps[|steps| - 1].Index? then !c.Lost? else c.OnField? && c.kind.Leaf?
    ensures Addresses(shape, vals, steps)
    decreases |steps|, 0
  {
    WalkLost(steps[1..]);
    var d := Declared(shape.decls, steps[0].key).value;
    RowAddressesIn(shape.decls[d].kind, vals.cells[d], hops + [Field(d)], steps[1..]);
  }

  lemma {:induction false} RowAddressesIn(kind: Kind, cell: Cell, hops: seq<Hop>, steps: seq<Step>)
    requires FitsCell(kind, cell)
    requires var c := Walk(OnField(kind, cell, hops), steps);
             if steps != [] && steps[|steps| - 1].Index? then !c.Lost? else c.OnField? && c.kind.Leaf?
    ensures AddressesIn(kind, cell, steps)
    decreases |steps|, 1
  {
    if steps != [] {
      WalkLost(steps[1..]);
      if kind.Group? {
        RowAddresses(kind.inner, cell.inner, hops, steps);
      } else if kind.Objects? && steps[1..] != [] {
        var i := steps[0].i;
        RowAddresses(kind.element, cell.elements[i], hops + [Element(i)], steps[1..]);
      }
    }
  }

  // ----- Loading what is left -----

  /** Erasing in the document and loading is loading and erasing in the values: the field or the element
      addressed goes, and everything else - other elements and their fields included - is loaded as
      before. */
  lemma {:induction false} LoadErased(shape: Shape, doc: Node, vals: Values, steps: seq<Step>)
    requires UniqueNames(shape) && UniqueKeys(doc)
    requires Fits(shape, vals) && Addresses(shape, vals, steps)
    requires SameValues(shape, Load(shape, Fresh(shape), doc), vals)
    ensures SameValues(shape, Load(shape, Fresh(shape), EraseAt(doc, steps).0), Erased(shape, vals, steps))
    ensures steps[|steps| - 1].Index? ==> EraseAt(doc, steps).1
    decreases |steps|, 0
  {
    hide EraseAt;
    var now := EraseAt(doc, steps).0;
    var back, left := Load(shape, Fresh(shape), now), Erased(shape, vals, steps);
    var d := Declared(shape.decls, steps[0].key).value;
    var found := Find(doc, steps[0].key);
    assert SameCell(shape.decls[d].kind, LoadCell(shape.decls[d].kind, FreshCell(shape.decls[d].kind), found),
           vals.cells[d]);
    assert UniqueNamesIn(shape.decls[d].kind);
    FoundUnique(doc, steps[0].key);
    EraseFind(doc, steps, steps[0].key);
    LoadErasedCell(shape.decls[d].kind, found, vals.cells[d], steps[1..]);
    forall i | 0 <= i < |shape.decls| && i != d ensures SameCell(shape.decls[i].kind, back.cells[i], left.cells[i]) {
      var name := shape.decls[i].name;
      DeclaredAt(shape, i);
      EraseFind(doc, steps, name);
      var kind := shape.decls[i].kind;
      assert SameCell(kind, LoadCell(kind, FreshCell(kind), Find(doc, name)), vals.cells[i]);
    }
  }

  lemma FoundUnique(n: Node, key: string)
    requires UniqueKeys(n)
    ensures Find(n, key).Some? ==> UniqueKeys(Find(n, key).value)
  {}

  lemma {:induction false} LoadErasedCell(kind: Kind, found: Option<Node>, cell: Cell, steps: seq<Step>)
    requires UniqueNamesIn(kind) && (found.Some? ==> UniqueKeys(found.value))
    requires FitsCell(kind, cell) && AddressesIn(kind, cell, steps)
    requires SameCell(kind, LoadCell(kind, FreshCell(kind), found), cell)
    ensures SameCell(kind, LoadCell(kind, FreshCell(kind), Rest(found, steps)), ErasedIn(kind, cell, steps))
    ensures steps != [] && steps[|steps| - 1].Index? ==> GoesOn(found, steps)
    decreases |steps|, 3
  {
    match kind
    case Leaf(_, _, _) =>
    case Group(_) => LoadErasedGroup(kind, found, cell, steps);
    case Leaves(_, _, _) =>
      hide EraseAt;
      EraseItem(found.value, steps);
      var i := steps[0].i;
      var now := LoadCell(kind, FreshCell(kind), Rest(found, steps));
      assert now.items == cell.items[..i] + cell.items[i + 1..];
    case Objects(_) => LoadErasedList(kind, found, cell, steps);
  }

  lemma {:induction false} LoadErasedGroup(kind: Kind, found: Option<Node>, cell: Cell, steps: seq<Step>)
    requires kind.Group? && UniqueNames(kind.inner) && (found.Some? ==> UniqueKeys(found.value))
    requires FitsCell(kind, cell) && AddressesIn(kind, cell, steps)
    requires SameCell(kind, LoadCell(kind, FreshCell(kind), found), cell)
    ensures SameCell(kind, LoadCell(kind, FreshCell(kind), Rest(found, steps)), ErasedIn(kind, cell, steps))
    ensures steps != [] && steps[|steps| - 1].Index? ==> GoesOn(found, steps)
    decreases |steps|, 2
  {
    hide EraseAt, UniqueKeys;
    var doc := if found.Some? && found.value.Obj? then found.value else Null;
    NullUnique();
    LoadNothing(kind.inner, Fresh(kind.inner), Null);
    LoadErased(kind.inner, doc, cell.inner, steps);
    EraseFind(doc, steps, "");
    EraseNothing(Null, steps);
    if found.Some? && !found.value.Obj? {
      EraseNothing(found.value, steps);
    }
  }

  lemma NullUnique()
    ensures UniqueKeys(Null)
  {}

  lemma {:induction false} LoadErasedList(kind: Kind, found: Option<Node>, cell: Cell, steps: seq<Step>)
    requires kind.Objects? && UniqueNames(kind.element) && (found.Some? ==> UniqueKeys(found.value))
    requires FitsCell(kind, cell) && AddressesIn(kind, cell, steps)
    requires SameCell(kind, LoadCell(kind, FreshCell(kind), found), cell)
    ensures SameCell(kind, LoadCell(kind, FreshCell(kind), Rest(found, steps)), ErasedIn(kind, cell, steps))
    ensures steps != [] && steps[|steps| - 1].Index? ==> GoesOn(found, steps)
    decreases |steps|, 2
  {
    hide EraseAt, Load, Erased, SameValues;
    var element := kind.element;
    EraseItem(found.value, steps);
    var i, items := steps[0].i, found.value.items;
    var now, left := LoadCell(kind, FreshCell(kind), Rest(found, steps)), ErasedIn(kind, cell, steps);
    if steps[1..] != [] {
      LoadErasedElement(element, items[i], cell.elements[i], steps[1..]);
    }
    forall j | 0 <= j < |left.elements| ensures SameValues(element, now.elements[j], left.elements[j]) {
      var k := if steps[1..] == [] && j >= i then j + 1 else j;
      assert SameValues(element, LoadElement(element, Fresh(element), items[k]), cell.elements[k]);
    }
  }

  lemma {:induction false} LoadErasedElement(element: Shape, item: Node, vals: Values, steps: seq<Step>)
    requires UniqueNames(element) && UniqueKeys(item)
    requires Fits(element, vals) && Addresses(element, vals, steps)
    requires SameValues(element, LoadElement(element, Fresh(element), item), vals)
    ensures SameValues(element, LoadElement(element, Fresh(element), EraseAt(item, steps).0),
            Erased(element, vals, steps))
    ensures steps[|steps| - 1].Index? ==> EraseAt(item, steps).1
    decreases |steps|, 1
  {
    EraseFind(item, steps, "");
    if !item.Obj? {
      LoadNothing(element, Fresh(element), item);
      EraseNothing(item, steps);
    }
    LoadErased(element, item, vals, steps);
  }

  // ----- Erasing never makes a document unacceptable -----

  /** The check has nothing to say about the document, and filling a config from it throws nothing. */
  ghost predicate Clean(shape: Shape, doc: Node) {
    Conforms(shape, doc) && !HasOutsider(shape, doc)
  }

  ghost predicate CleanCell(kind: Kind, found: Option<Node>) {
    ConformsCell(kind, found) && !OutsiderIn(kind, found)
  }

  lemma CleanByCell(shape: Shape, doc: Node)
    ensures Clean(shape, doc) <==> forall i | 0 <= i < |shape.decls| ::
            CleanCell(shape.decls[i].kind, Find(doc, shape.decls[i].name))
  {}

  lemma EraseFromScalar(n: Node, steps: seq<Step>)
    requires !n.Obj? && !n.Arr?
    ensures EraseAt(n, steps) == (n, false)
  {
    if |steps| > 1 {
      EraseUnfolds(n, steps);
    } else if |steps| == 1 {
      assert steps[..0] == [];
    }
  }

  /** Whatever the address: under any one key of an object an erasure leaves nothing, what there was, or
      that with the rest of the address erased. */
  lemma EraseShrinks(n: Node, steps: seq<Step>, key: string)
    requires UniqueKeys(n)
    ensures var now := Find(EraseAt(n, steps).0, key);
            now.None? || now == Find(n, key) || (steps != [] && now == Rest(Find(n, key), steps[1..]))
    ensures EraseAt(n, steps).0.Obj? == n.Obj? && EraseAt(n, steps).0.Arr? == n.Arr?
  {
    if n.Obj? && steps != [] {
      if steps[0].Key? {
        EraseFind(n, steps, key);
      } else if |steps| > 1 {
        EraseUnfolds(n, steps);
      } else if steps[0].i < |n.entries| {
        assert steps[..0] == [];
        LookupWithout(n.entries, steps[0].i, key);
      }
    } else if n.Arr? && steps != [] {
      if steps[0].Key? {
        EraseNothing(n, steps);
      } else {
        EraseFromArray(n, steps);
      }
    } else if steps != [] {
      EraseFromScalar(n, steps);
    }
  }

  lemma EraseFromArray(n: Node, steps: seq<Step>)
    requires n.Arr? && steps != [] && steps[0].Index?
    ensures var i := steps[0].i;
            EraseAt(n, steps).0 ==
            if i >= |n.items| then n
            else if steps[1..] == [] then Arr(n.items[..i] + n.items[i + 1..])
            else Arr(n.items[i := EraseAt(n.items[i], steps[1..]).0])
  {
    if steps[0].i < |n.items| {
      EraseItem(n, steps);
    } else if |steps| > 1 {
      EraseUnfolds(n, steps);
    } else {
      assert steps[..0] == [];
    }
  }

  lemma {:induction false} EraseKeepsClean(shape: Shape, doc: Node, steps: seq<Step>)
    requires UniqueKeys(doc) && Clean(shape, doc)
    ensures Clean(shape, EraseAt(doc, steps).0)
    decreases |steps|, 0
  {
    hide EraseAt, CleanCell, Clean;
    CleanByCell(shape, doc);
    var now := EraseAt(doc, steps).0;
    forall i | 0 <= i < |shape.decls| ensures CleanCell(shape.decls[i].kind, Find(now, shape.decls[i].name)) {
      var kind, name := shape.decls[i].kind, shape.decls[i].name;
      EraseShrinks(doc, steps, name);
      FoundUnique(doc, name);
      NothingClean(kind);
      if steps != [] && Find(doc, name).Some? {
        RestClean(kind, Find(doc, name).value, steps[1..]);
      }
    }
    CleanByCell(shape, now);
  }

  lemma NothingClean(kind: Kind)
    ensures CleanCell(kind, None)
  {}

  lemma {:induction false} RestClean(kind: Kind, n: Node, steps: seq<Step>)
    requires UniqueKeys(n) && CleanCell(kind, Some(n))
    ensures CleanCell(kind, Rest(Some(n), steps))
    decreases |steps|, 1
  {
    hide EraseAt;
    EraseShrinks(n, steps, "");
    if !n.Obj? && !n.Arr? {
      EraseFromScalar(n, steps);
    } else if kind.Group? {
      EraseKeepsClean(kind.inner, n, steps);
    } else if steps != [] && steps[0].Key? {
      EraseNothing(n, steps);
    } else if steps != [] {
      EraseFromArray(n, steps);
      var i, now := steps[0].i, EraseAt(n, steps).0.items;
      forall j | 0 <= j < |now| ensures ItemClean(kind, now[j]) {
        var k := if i < |n.items| && steps[1..] == [] && j >= i then j + 1 else j;
        assert ConformsItem(kind, n.items[k]);
        if k == i && steps[1..] != [] {
          ItemKeepsClean(kind, n.items[i], steps[1..]);
        }
      }
    }
  }

  ghost predicate ItemClean(kind: Kind, n: Node)
    requires kind.Leaves? || kind.Objects?
  {
    ConformsItem(kind, n) && (kind.Objects? ==> !HasOutsider(kind.element, n))
  }

  lemma {:induction false} ItemKeepsClean(kind: Kind, n: Node, steps: seq<Step>)
    requires (kind.Leaves? || kind.Objects?) && UniqueKeys(n) && ItemClean(kind, n)
    ensures ItemClean(kind, EraseAt(n, steps).0)
    decreases |steps|, 1
  {
    if kind.Objects? {
      EraseShrinks(n, steps, "");
      EraseKeepsClean(kind.element, n, steps);
    } else {
      EraseFromScalar(n, steps);
    }
  }
}
