/** The undeclared keys of a stored document, by address: where they stand in the document the editor
    writes, and after something was erased from it. */
module ConfigUnknown {
  import opened Common
  import opened ConfigNode
  import opened ConfigShape
  import opened ConfigRoundTrip
  import opened ConfigFill
  import opened ConfigCarry
  import opened ConfigAddress
  import opened ConfigEditor
  import opened ConfigErase

  /** The address leads, through declared groups and through elements the values still have, to an
      undeclared key of the stored document or to something below one. */
  ghost predicate UnknownAt(shape: Shape, vals: Values, stored: Node, u: seq<Step>)
    requires Fits(shape, vals)
    decreases |u|, 0
  {
    && u != [] && u[0].Key? && Find(stored, u[0].key).Some?
    && var d := Declared(shape.decls, u[0].key);
       var held := Find(stored, u[0].key).value;
       if d.None? then At(held, u[1..]).Some?
       else UnknownIn(shape.decls[d.value].kind, vals.cells[d.value], held, u[1..])
  }

  ghost predicate UnknownIn(kind: Kind, cell: Cell, held: Node, u: seq<Step>)
    requires FitsCell(kind, cell)
    decreases |u|, 1
  {
    match kind
    case Group(inner) => UnknownAt(inner, cell.inner, held, u)
    case Objects(element) =>
      && u != [] && u[0].Index? && u[0].i < |cell.elements|
      && held.Arr? && u[0].i < |held.items|
      && UnknownAt(element, cell.elements[u[0].i], held.items[u[0].i], u[1..])
    case _ => false
  }

  // ----- The document, one step down -----

  /** What stands under a key, nothing reading as null. */
  function HeldUnder(n: Node, key: string): (held: Node)
    ensures UniqueKeys(n) ==> UniqueKeys(held)
  {
    FoundUniqueIf(n, key);
    if Find(n, key).Some? then Find(n, key).value else Null
  }

  lemma FoundUniqueIf(n: Node, key: string)
    ensures UniqueKeys(n) && Find(n, key).Some? ==> UniqueKeys(Find(n, key).value)
  {
    if UniqueKeys(n) {
      FoundUnique(n, key);
    }
  }

  lemma ItemUnique(n: Node, i: nat)
    requires UniqueKeys(n)
    ensures UniqueKeys(ItemUnder(n, i))
  {}

  /** What a group's key holds in the document, unless there is nothing to hold. */
  lemma DocumentGroup(shape: Shape, vals: Values, stored: Node, d: nat)
    requires Fits(shape, vals) && UniqueNames(shape) && UniqueKeys(stored)
    requires d < |shape.decls| && shape.decls[d].kind.Group?
    requires FitsCell(shape.decls[d].kind, vals.cells[d])
    ensures var name, inner := shape.decls[d].name, shape.decls[d].kind.inner;
            var held := HeldUnder(stored, name);
            var below := Document(inner, vals.cells[d].inner, held);
            Entries(below) != [] ==> Find(Document(shape, vals, stored), name) == Some(below)
  {
    var name := shape.decls[d].name;
    DeclaredAt(shape, d);
    SaveFind(shape, vals, name);
    if stored.Obj? {
      CarryFind(shape, stored, Save(shape, vals), name);
    }
  }

  /** The elements an array has in the document, given what the stored one holds under its key. */
  function DocumentItems(kind: Kind, cell: Cell, held: Node): (items: seq<Node>)
    requires (kind.Leaves? || kind.Objects?) && FitsCell(kind, cell)
    ensures |items| == if kind.Leaves? then |cell.items| else |cell.elements|
  {
    if kind.Leaves? then seq(|cell.items|, i requires 0 <= i < |cell.items| => NodeOf(cell.items[i]))
    else seq(|cell.elements|, i requires 0 <= i < |cell.elements| =>
           Document(kind.element, cell.elements[i], ItemUnder(held, i)))
  }

  /** An element of an array, none reading as null. */
  function ItemUnder(n: Node, i: nat): Node {
    if n.Arr? && i < |n.items| then n.items[i] else Null
  }

  lemma DocumentList(shape: Shape, vals: Values, stored: Node, d: nat)
    requires Fits(shape, vals) && UniqueNames(shape) && UniqueKeys(stored)
    requires d < |shape.decls| && (shape.decls[d].kind.Leaves? || shape.decls[d].kind.Objects?)
    requires FitsCell(shape.decls[d].kind, vals.cells[d]) && vals.cells[d].written
    ensures var name, kind := shape.decls[d].name, shape.decls[d].kind;
            Find(Document(shape, vals, stored), name) ==
            Some(Arr(DocumentItems(kind, vals.cells[d], HeldUnder(stored, name))))
  {
    var name, kind := shape.decls[d].name, shape.decls[d].kind;
    DeclaredAt(shape, d);
    SaveFind(shape, vals, name);
    if stored.Obj? {
      CarryFind(shape, stored, Save(shape, vals), name);
    }
    assert Find(Document(shape, vals, stored), name).value.items ==
           DocumentItems(kind, vals.cells[d], HeldUnder(stored, name));
  }

  lemma DocumentUndeclared(shape: Shape, vals: Values, stored: Node, key: string)
    requires Fits(shape, vals) && UniqueNames(shape) && UniqueKeys(stored)
    requires Declared(shape.decls, key).None? && Find(stored, key).Some?
    ensures Find(Document(shape, vals, stored), key) == Find(stored, key)
  {
    CarryFind(shape, stored, Save(shape, vals), key);
  }

  /** What is found below a child is found below the parent. */
  lemma Deeper(n: Node, steps: seq<Step>, child: Node)
    requires steps != [] && Child(n, steps[0]) == Some(child)
    ensures At(n, steps) == At(child, steps[1..])
  {}

  lemma FoundMeansEntries(n: Node, steps: seq<Step>)
    requires steps != [] && steps[0].Key? && At(n, steps).Some?
    ensures Entries(n) != []
  {}

  // ----- At every depth -----

  /** The document the editor writes holds every undeclared key of the stored one, with all that is below
      it, at the very address it had. */
  lemma {:induction false} UnknownStays(shape: Shape, vals: Values, stored: Node, u: seq<Step>)
    requires Fits(shape, vals) && Tidy(shape, vals) && UniqueNames(shape) && UniqueKeys(stored)
    requires UnknownAt(shape, vals, stored, u)
    ensures At(stored, u).Some? && At(Document(shape, vals, stored), u) == At(stored, u)
    decreases |u|
  {
    hide Document, Lookup;
    var held := Find(stored, u[0].key).value;
    FoundUnique(stored, u[0].key);
    Deeper(stored, u, held);
    var d := Declared(shape.decls, u[0].key);
    if d.None? {
      DocumentUndeclared(shape, vals, stored, u[0].key);
      Deeper(Document(shape, vals, stored), u, held);
      return;
    }
    var kind, cell := shape.decls[d.value].kind, vals.cells[d.value];
    assert TidyCell(kind, cell) && UniqueNamesIn(kind);
    if kind.Group? {
      var below := Document(kind.inner, cell.inner, held);
      UnknownStays(kind.inner, cell.inner, held, u[1..]);
      FoundMeansEntries(below, u[1..]);
      DocumentGroup(shape, vals, stored, d.value);
      Deeper(Document(shape, vals, stored), u, below);
    } else {
      var i := u[1..][0].i;
      var below := Document(kind.element, cell.elements[i], held.items[i]);
      DocumentList(shape, vals, stored, d.value);
      UnknownStays(kind.element, cell.elements[i], held.items[i], u[1..][1..]);
      var list := Find(Document(shape, vals, stored), u[0].key).value;
      Deeper(held, u[1..], held.items[i]);
      Deeper(list, u[1..], below);
      Deeper(Document(shape, vals, stored), u, list);
    }
  }

  /** An element the values have is there in the document. */
  lemma {:induction false} ElementThere(shape: Shape, vals: Values, stored: Node, steps: seq<Step>)
    requires Fits(shape, vals) && Tidy(shape, vals) && UniqueNames(shape) && UniqueKeys(stored)
    requires Addresses(shape, vals, steps) && steps[|steps| - 1].Index?
    ensures At(Document(shape, vals, stored), steps).Some?
    decreases |steps|, 1
  {
    hide Document, Lookup, UniqueKeys, At;
    var d := Declared(shape.decls, steps[0].key).value;
    var kind, cell := shape.decls[d].kind, vals.cells[d];
    assert TidyCell(kind, cell) && UniqueNamesIn(kind) && FitsCell(kind, cell);
    if !kind.Group? {
      ListElementThere(shape, vals, stored, d, steps);
      return;
    }
    var held := HeldUnder(stored, steps[0].key);
    var below := Document(kind.inner, cell.inner, held);
    ElementThere(kind.inner, cell.inner, held, steps[1..]);
    FoundMeansEntries(below, steps[1..]);
    DocumentGroup(shape, vals, stored, d);
    Deeper(Document(shape, vals, stored), steps, below);
  }

  lemma {:induction false} ListElementThere(shape: Shape, vals: Values, stored: Node, d: nat, steps: seq<Step>)
    requires Fits(shape, vals) && |vals.cells| == |shape.decls| && UniqueNames(shape) && UniqueKeys(stored)
    requires d < |shape.decls| && (shape.decls[d].kind.Leaves? || shape.decls[d].kind.Objects?)
    requires FitsCell(shape.decls[d].kind, vals.cells[d]) && TidyCell(shape.decls[d].kind, vals.cells[d])
    requires UniqueNamesIn(shape.decls[d].kind)
    requires steps != [] && steps[0] == Key(shape.decls[d].name)
    requires AddressesIn(shape.decls[d].kind, vals.cells[d], steps[1..]) && steps[|steps| - 1].Index?
    ensures At(Document(shape, vals, stored), steps).Some?
    decreases |steps|, 0
  {
    hide Document, Lookup, UniqueKeys, Fits, UniqueNames, Tidy;
    var kind, cell := shape.decls[d].kind, vals.cells[d];
    var doc, held, i := Document(shape, vals, stored), HeldUnder(stored, steps[0].key), steps[1].i;
    DocumentList(shape, vals, stored, d);
    assert kind.Leaves? ==> steps[1..][1..] == [];
    var list := Find(doc, steps[0].key).value;
    Deeper(doc, steps, list);
    Deeper(list, steps[1..], list.items[i]);
    if kind.Objects? && steps[1..][1..] != [] {
      ItemUnique(held, i);
      ElementThere(kind.element, cell.elements[i], ItemUnder(held, i), steps[1..][1..]);
    }
  }

  /** The way to an undeclared key never ends on the way to a field or an element. */
  lemma {:induction false} UnknownElsewhere(shape: Shape, vals: Values, stored: Node, steps: seq<Step>, u: seq<Step>)
    requires Fits(shape, vals) && Addresses(shape, vals, steps) && UnknownAt(shape, vals, stored, u)
    ensures !(u <= steps)
    ensures steps[|steps| - 1].Key? ==> !(steps <= u)
    decreases |u|
  {
    if u[0] == steps[0] {
      var d := Declared(shape.decls, u[0].key).value;
      var kind, cell, held := shape.decls[d].kind, vals.cells[d], Find(stored, u[0].key).value;
      assert u[1..] <= steps[1..] || !(u <= steps);
      assert steps[1..] <= u[1..] || !(steps <= u);
      assert UnknownIn(kind, cell, held, u[1..]) && AddressesIn(kind, cell, steps[1..]);
      assert kind.Group? ==> UnknownAt(kind.inner, cell.inner, held, u[1..]);
      assert kind.Group? || kind.Objects?;
      assert u[1..] != [] && steps[1..] != [];
      if kind.Group? {
        UnknownElsewhere(kind.inner, cell.inner, held, steps[1..], u[1..]);
      } else {
        var i := u[1..][0].i;
        assert UnknownAt(kind.element, cell.elements[i], held.items[i], u[1..][1..]);
        assert |u| > 2;
        if u[1] != steps[1] || steps[1..][1..] == [] {
          assert |steps| < |u| || u[1] != steps[1];
          return;
        }
        UnknownElsewhere(kind.element, cell.elements[i], held.items[i], steps[1..][1..], u[1..][1..]);
        assert u[1..][1..] <= steps[1..][1..] || !(u <= steps);
        assert steps[1..][1..] <= u[1..][1..] || !(steps <= u);
      }
    }
  }

  /** Removing an array element, at whatever depth: every undeclared key of the stored document that does
      not belong to it keeps its value, under the address it had, counted without the element. */
  lemma RemovedElementOnly(shape: Shape, vals: Values, stored: Node, steps: seq<Step>, u: seq<Step>)
    requires Fits(shape, vals) && Tidy(shape, vals) && UniqueNames(shape) && UniqueKeys(stored)
    requires Addresses(shape, vals, steps) && steps[|steps| - 1].Index?
    requires UnknownAt(shape, vals, stored, u) && !(steps <= u)
    requires UniqueKeys(Document(shape, vals, stored))
    ensures At(stored, u).Some?
    ensures At(EraseAt(Document(shape, vals, stored), steps).0, Shifted(steps, u)) == At(stored, u)
  {
    hide Addresses, UnknownAt, Document, UniqueKeys, EraseAt;
    UnknownStays(shape, vals, stored, u);
    ElementThere(shape, vals, stored, steps);
    UnknownElsewhere(shape, vals, stored, steps, u);
    EraseRemovesOnly(Document(shape, vals, stored), steps, u);
  }

  /** So does emptying a field, and no address moves. */
  lemma ClearedFieldOnly(shape: Shape, vals: Values, stored: Node, steps: seq<Step>, u: seq<Step>)
    requires Fits(shape, vals) && Tidy(shape, vals) && UniqueNames(shape) && UniqueKeys(stored)
    requires Addresses(shape, vals, steps) && steps[|steps| - 1].Key? && UnknownAt(shape, vals, stored, u)
    requires UniqueKeys(Document(shape, vals, stored))
    ensures At(stored, u).Some?
    ensures At(EraseAt(Document(shape, vals, stored), steps).0, u) == At(stored, u)
  {
    var doc := Document(shape, vals, stored);
    hide Addresses, UnknownAt, Document, UniqueKeys, EraseAt;
    UnknownStays(shape, vals, stored, u);
    UnknownElsewhere(shape, vals, stored, steps, u);
    if At(doc, steps).Some? {
      EraseRemovesOnly(doc, steps, u);
    } else {
      EraseAbsent(doc, steps);
    }
  }

  lemma EraseAbsent(n: Node, steps: seq<Step>)
    requires steps != [] && steps[|steps| - 1].Key? && At(n, steps).None?
    ensures EraseAt(n, steps) == (n, false)
  {
    hide EraseAt;
    EraseAnswers(n, steps);
    var front, last := steps[..|steps| - 1], steps[|steps| - 1];
    assert steps == front + [last];
    AtLast(n, front, last);
  }
}
