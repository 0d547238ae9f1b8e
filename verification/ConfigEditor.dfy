/** The editor of a module's config: what it loads, what it would save, and its edits. */
module ConfigEditor {
  import opened Common
  import opened ConfigNode
  import opened ConfigShape
  import opened ConfigMisfits
  import opened ConfigRoundTrip
  import opened ConfigCarry
  import opened ConfigCarryTheorems
  import opened ConfigFill
  import opened ConfigFillTheorems

  /** The document a config would be saved as: what is worth writing, plus the undeclared keys of the
      document it was loaded from. */
  function Document(shape: Shape, vals: Values, stored: Node): Node
    requires Fits(shape, vals)
  {
    Carry(shape, stored, Save(shape, vals))
  }

  lemma DocumentIs(shape: Shape, vals: Values, stored: Node)
    requires Fits(shape, vals)
    ensures Document(shape, vals, stored) == Carry(shape, stored, Save(shape, vals))
    ensures Document(shape, vals, stored).Obj?
  {}

  lemma KeysDistinct(n: Node)
    requires UniqueKeys(n) && n.Obj?
    ensures DistinctKeys(n.entries)
  {}

  // ----- Saving and loading again -----

  lemma DocumentLoads(shape: Shape, vals: Values, stored: Node)
    requires Fits(shape, vals) && Tidy(shape, vals) && UniqueNames(shape) && UniqueKeys(stored)
    ensures !HasOutsider(shape, Document(shape, vals, stored))
    ensures SameValues(shape, Load(shape, Fresh(shape), Document(shape, vals, stored)), vals)
  {
    LoadSave(shape, vals);
    LoadIgnoresCarry(shape, Fresh(shape), stored, Save(shape, vals));
  }

  /** For every state of the values and every stored document: load_fields takes what the editor writes
      without throwing and gives exactly those values back, and what is written holds every undeclared key
      of the stored document at its depth. */
  lemma DocumentRoundTrip(shape: Shape, vals: Values, stored: Node)
    requires Fits(shape, vals) && Tidy(shape, vals) && UniqueNames(shape) && UniqueKeys(stored)
    ensures !Throws(shape, Document(shape, vals, stored))
    ensures SameValues(shape, Filled(shape, Document(shape, vals, stored)), vals)
    ensures KeepsUnknown(shape, stored, Document(shape, vals, stored))
  {
    hide Throws, Filled, SameValues;
    DocumentLoads(shape, vals, stored);
    FreshFilled(shape, Document(shape, vals, stored));
    CarryKeepsUnknown(shape, stored, Save(shape, vals));
  }

  /** Opening a document and saving it untouched keeps what was read of it: loading the result gives the
      same values, and no undeclared key is lost. */
  lemma OpenAndSave(shape: Shape, stored: Node)
    requires UniqueNames(shape) && UniqueKeys(stored)
    ensures var vals := Filled(shape, stored);
            var saved := Document(shape, vals, stored);
            SameValues(shape, Filled(shape, saved), vals) && KeepsUnknown(shape, stored, saved)
  {
    FilledTidy(shape, stored);
    DocumentRoundTrip(shape, Filled(shape, stored), stored);
  }

  // ----- What an admitted document becomes -----

  /** Every declared value the document fills stands in the config, marked as written. */
  ghost predicate Taken(shape: Shape, vals: Values, doc: Node)
    requires Fits(shape, vals)
    decreases shape
  {
    forall i | 0 <= i < |shape.decls| :: TakenCell(shape.decls[i].kind, vals.cells[i], Find(doc, shape.decls[i].name))
  }

  ghost predicate TakenCell(kind: Kind, cell: Cell, found: Option<Node>)
    requires FitsCell(kind, cell)
    decreases kind
  {
    found == None || found == Some(Null) ||
    var n := found.value;
    match kind
    case Leaf(form, _, _) => cell.written && FormOf(cell.value) == form && Spells(n, cell.value)
    case Group(inner) => n.Obj? && Taken(inner, cell.inner, n)
    case Leaves(form, _, _) =>
      && cell.written && n.Arr? && |n.items| == |cell.items|
      && forall i | 0 <= i < |n.items| :: FormOf(cell.items[i]) == form && Spells(n.items[i], cell.items[i])
    case Objects(element) =>
      && cell.written && n.Arr? && |n.items| == |cell.elements|
      && forall i | 0 <= i < |n.items| :: n.items[i].Obj? && Taken(element, cell.elements[i], n.items[i])
  }

  /** A conforming document that load_fields does not throw on is taken whole. */
  lemma {:induction false} ConformingIsTaken(shape: Shape, vals: Values, doc: Node)
    requires Fits(shape, vals) && Conforms(shape, doc) && !HasOutsider(shape, doc)
    ensures Taken(shape, Load(shape, vals, doc), doc)
    decreases shape, 0
  {
    forall i | 0 <= i < |shape.decls|
      ensures TakenCell(shape.decls[i].kind,
                        LoadCell(shape.decls[i].kind, vals.cells[i], Find(doc, shape.decls[i].name)),
                        Find(doc, shape.decls[i].name))
    {
      assert !OutsiderIn(shape.decls[i].kind, Find(doc, shape.decls[i].name));
      ConformingCellTaken(shape.decls[i].kind, vals.cells[i], Find(doc, shape.decls[i].name));
    }
  }

  lemma {:induction false} ConformingCellTaken(kind: Kind, cell: Cell, found: Option<Node>)
    requires FitsCell(kind, cell) && ConformsCell(kind, found) && !OutsiderIn(kind, found)
    ensures TakenCell(kind, LoadCell(kind, cell, found), found)
    decreases kind, 0
  {
    if Absent(found) { return; }
    var n := found.value;
    match kind
    case Leaf(_, _, _) =>
    case Group(inner) => ConformingIsTaken(inner, cell.inner, n);
    case Leaves(form, options, _) =>
      forall i | 0 <= i < |n.items|
        ensures Read(form, n.items[i]) == Some(LoadCell(kind, cell, found).items[i])
      {
        assert ConformsItem(kind, n.items[i]);
      }
    case Objects(element) =>
      forall i | 0 <= i < |n.items|
        ensures n.items[i].Obj? && Taken(element, LoadCell(kind, cell, found).elements[i], n.items[i])
      {
        assert ConformsItem(kind, n.items[i]);
        ConformingIsTaken(element, if i < |cell.elements| then cell.elements[i] else Fresh(element), n.items[i]);
      }
  }

  // ----- Whether the editor accepts its own documents -----

  /** Every text element of a sized array is one its declaration lists. */
  ghost predicate ElementsListed(shape: Shape, vals: Values)
    requires Fits(shape, vals)
    decreases shape
  {
    forall i | 0 <= i < |shape.decls| :: ElementsListedIn(shape.decls[i].kind, vals.cells[i])
  }

  ghost predicate ElementsListedIn(kind: Kind, cell: Cell)
    requires FitsCell(kind, cell)
    decreases kind
  {
    match kind
    case Leaf(_, _, _) => true
    case Group(inner) => ElementsListed(inner, cell.inner)
    case Leaves(form, options, _) => form == Text ==> forall i | 0 <= i < |cell.items| :: Allows(options, cell.items[i])
    case Objects(element) => forall i | 0 <= i < |cell.elements| :: ElementsListed(element, cell.elements[i])
  }

  lemma {:induction false} SavedConforms(shape: Shape, vals: Values)
    requires Fits(shape, vals) && Tidy(shape, vals) && UniqueNames(shape)
    ensures Conforms(shape, Save(shape, vals)) <==> ElementsListed(shape, vals)
    decreases shape, 0
  {
    forall i | 0 <= i < |shape.decls|
      ensures ConformsCell(shape.decls[i].kind, Find(Save(shape, vals), shape.decls[i].name)) <==>
              ElementsListedIn(shape.decls[i].kind, vals.cells[i])
    {
      DeclaredAt(shape, i);
      SaveFind(shape, vals, shape.decls[i].name);
      assert UniqueNamesIn(shape.decls[i].kind) && TidyCell(shape.decls[i].kind, vals.cells[i]);
      SavedCellConforms(shape.decls[i].kind, vals.cells[i]);
    }
  }

  lemma {:induction false} SavedCellConforms(kind: Kind, cell: Cell)
    requires FitsCell(kind, cell) && TidyCell(kind, cell) && UniqueNamesIn(kind)
    ensures ConformsCell(kind, SaveCell(kind, cell)) <==> ElementsListedIn(kind, cell)
    decreases kind, 0
  {
    match kind
    case Leaf(_, _, _) =>
    case Group(inner) =>
      SavedConforms(inner, cell.inner);
      if Entries(Save(inner, cell.inner)) == [] {
      }
    case Leaves(form, options, _) =>
      if cell.written {
        var items := SaveCell(kind, cell).value.items;
        assert forall i | 0 <= i < |items| :: ConformsItem(kind, items[i]) <==>
               (form == Text ==> Allows(options, cell.items[i]));
      }
    case Objects(element) =>
      if cell.written {
        var items := SaveCell(kind, cell).value.items;
        forall i | 0 <= i < |items|
          ensures ConformsItem(kind, items[i]) <==> ElementsListed(element, cell.elements[i])
        {
          SavedConforms(element, cell.elements[i]);
        }
      }
  }

  lemma {:induction false} ConformsIgnoresCarry(shape: Shape, from: Node, into: Node)
    requires UniqueNames(shape) && UniqueKeys(from)
    ensures Conforms(shape, Carry(shape, from, into)) <==> Conforms(shape, into)
    decreases from, 1
  {
    if from.Obj? && into.Obj? {
      var merged := Carry(shape, from, into);
      forall i | 0 <= i < |shape.decls|
        ensures ConformsCell(shape.decls[i].kind, Find(merged, shape.decls[i].name)) <==>
                ConformsCell(shape.decls[i].kind, Find(into, shape.decls[i].name))
      {
        var d := shape.decls[i];
        DeclaredAt(shape, i);
        CarryFind(shape, from, into, d.name);
        var at := IndexOf(from.entries, d.name);
        if at.Some? {
          assert UniqueNamesIn(d.kind);
          ConformsIgnoresSettled(shape, i, from.entries[at.value], Find(into, d.name));
          assert from.entries[at.value] == Pair(d.name, from.entries[at.value].value);
        }
      }
    }
  }

  lemma {:induction false} ConformsIgnoresSettled(shape: Shape, i: nat, pair: Pair, held: Option<Node>)
    requires i < |shape.decls| && UniqueNames(shape) && UniqueNamesIn(shape.decls[i].kind)
    requires shape.decls[i].name == pair.key && UniqueKeys(pair.value)
    ensures var s := Settled(shape, pair, held);
            ConformsCell(shape.decls[i].kind, if s.Some? then s else held) <==> ConformsCell(shape.decls[i].kind, held)
    decreases pair, 0
  {
    DeclaredAt(shape, i);
    match shape.decls[i].kind
    case Group(inner) =>
      ConformsIgnoresCarry(inner, pair.value, if held.Some? then held.value else EMPTY_OBJECT);
    case Objects(element) =>
      if held.Some? && held.value.Arr? && pair.value.Arr? {
        var merged := CarryItems(element, pair.value, held.value);
        forall k | 0 <= k < |held.value.items|
          ensures ConformsItem(Objects(element), merged.items[k]) <==>
                  ConformsItem(Objects(element), held.value.items[k])
        {
          if k < |pair.value.items| {
            ConformsIgnoresCarry(element, pair.value.items[k], held.value.items[k]);
          }
        }
      }
    case _ =>
  }

  /** The editor accepts the document it writes exactly when no array of texts holds an element its
      declaration does not list - which a freshly added element of an enumeration may be. */
  lemma OwnDocumentAdmitted(shape: Shape, vals: Values, stored: Node)
    requires Fits(shape, vals) && Tidy(shape, vals) && UniqueNames(shape) && UniqueKeys(stored)
    ensures AllMisfits(shape, Document(shape, vals, stored)) == [] <==> ElementsListed(shape, vals)
  {
    var saved := Save(shape, vals);
    SavedConforms(shape, vals);
    ConformsIgnoresCarry(shape, stored, saved);
    NoMisfitsIffConforms(shape, Document(shape, vals, stored));
  }

  lemma {:induction false} FreshListed(shape: Shape)
    ensures ElementsListed(shape, Fresh(shape))
  {
    forall i | 0 <= i < |shape.decls| ensures ElementsListedIn(shape.decls[i].kind, FreshCell(shape.decls[i].kind)) {
      if shape.decls[i].kind.Group? {
        FreshListed(shape.decls[i].kind.inner);
      }
    }
  }

  /** A document without misfits leaves no unlisted element, filled to the end or not. */
  lemma {:induction false} FillListed(shape: Shape, vals: Values, doc: Node, n: nat)
    requires Fits(shape, vals) && Conforms(shape, doc) && ElementsListed(shape, vals) && n <= |shape.decls|
    ensures ElementsListed(shape, FillUpTo(shape, vals, doc, n).values)
    decreases shape, n
  {
    hide FillCell, ConformsCell, ElementsListedIn;
    if n > 0 {
      FillListed(shape, vals, doc, n - 1);
      var before := FillUpTo(shape, vals, doc, n - 1);
      FillCellListed(shape.decls[n - 1].kind, before.values.cells[n - 1], Find(doc, shape.decls[n - 1].name));
    }
  }

  lemma {:induction false} FillCellListed(kind: Kind, cell: Cell, found: Option<Node>)
    requires FitsCell(kind, cell) && ConformsCell(kind, found) && ElementsListedIn(kind, cell)
    ensures ElementsListedIn(kind, FillCell(kind, cell, found).cell)
    decreases kind, 1
  {
    if Absent(found) { return; }
    var n := found.value;
    match kind
    case Leaf(_, _, _) =>
    case Group(inner) => FillListed(inner, cell.inner, n, |inner.decls|);
    case Leaves(form, options, _) =>
      assert forall i | 0 <= i < |n.items| :: ConformsItem(kind, n.items[i]);
    case Objects(element) =>
      FreshListed(element);
      FillElementsListed(element, Resized(element, cell.elements, |n.items|), n.items, |n.items|);
  }

  lemma {:induction false} FillElementsListed(element: Shape, held: seq<Values>, items: seq<Node>, n: nat)
    requires |held| == |items| && n <= |items| && AllFit(element, held)
    requires forall i | 0 <= i < |held| :: ElementsListed(element, held[i])
    requires forall i | 0 <= i < |items| :: ConformsItem(Objects(element), items[i])
    ensures forall i | 0 <= i < |held| :: ElementsListed(element, FillElements(element, held, items, n).elements[i])
    decreases element, |element.decls| + 2, n
  {
    if n > 0 {
      FillElementsListed(element, held, items, n - 1);
      var before := FillElements(element, held, items, n - 1);
      assert ConformsItem(Objects(element), items[n - 1]);
      FillListed(element, before.elements[n - 1], items[n - 1], |element.decls|);
    }
  }

  lemma FilledListed(shape: Shape, doc: Node)
    requires AllMisfits(shape, doc) == []
    ensures ElementsListed(shape, Filled(shape, doc))
  {
    NoMisfitsIffConforms(shape, doc);
    FreshListed(shape);
    FillListed(shape, Fresh(shape), doc, |shape.decls|);
  }

  // ----- Saving after an exception -----

  /** An untouched field has nothing to say, and nothing is carried into its place. */
  lemma UntouchedSaysNothing(shape: Shape, i: nat, v: Node)
    requires i < |shape.decls| && Declared(shape.decls, shape.decls[i].name) == Some(i) && !shape.decls[i].kind.Group?
    ensures SaveCell(shape.decls[i].kind, FreshCell(shape.decls[i].kind)) == None
    ensures Settled(shape, Pair(shape.decls[i].name, v), None) == None
  {}

  /** What an exception costs: a field declared after the one that refused its value is not in the document
      the half-filled config would be saved as, whatever the stored document held for it. */
  lemma SavingAfterThrowLoses(shape: Shape, doc: Node, at: seq<Step>, i: nat)
    requires UniqueNames(shape) && UniqueKeys(doc)
    requires Stopped(shape, Fresh(shape), doc, Filled(shape, doc), at)
    requires i < |shape.decls| && !shape.decls[i].kind.Group?
    requires at != [] && at[0].Key? && Declared(shape.decls, at[0].key).Some?
    requires Declared(shape.decls, at[0].key).value < i
    ensures Find(Document(shape, Filled(shape, doc), doc), shape.decls[i].name).None?
  {
    hide Filled, StoppedCell, OutsiderIn, LoadCell, Settled, SaveCell, FreshCell, UniqueKeys, Document;
    var vals := Filled(shape, doc);
    var k :| 0 <= k < |shape.decls| && StoppedField(shape, Fresh(shape), doc, vals, at, k);
    DeclaredAt(shape, k);
    DeclaredAt(shape, i);
    assert vals.cells[i] == FreshCell(shape.decls[i].kind);
    SaveFind(shape, vals, shape.decls[i].name);
    var found := Find(doc, shape.decls[i].name);
    UntouchedSaysNothing(shape, i, if found.Some? then found.value else Null);
    assert Document(shape, vals, doc) == Carry(shape, doc, Save(shape, vals)) by { DocumentIs(shape, vals, doc); }
    if doc.Obj? {
      assert DistinctKeys(doc.entries) by { KeysDistinct(doc); }
      CarryFind(shape, doc, Save(shape, vals), shape.decls[i].name);
    }
  }

  // ----- Agreeing declarations -----

  /** Two declarations of the same names and forms at every depth; defaults and value sets may differ. */
  function SameShape(a: Shape, b: Shape): bool {
    |a.decls| == |b.decls| &&
    forall i | 0 <= i < |a.decls| :: a.decls[i].name == b.decls[i].name && SameKind(a.decls[i].kind, b.decls[i].kind)
  }

  function SameKind(a: Kind, b: Kind): bool {
    match (a, b)
    case (Leaf(f, _, _), Leaf(g, _, _)) => f == g
    case (Group(x), Group(y)) => SameShape(x, y)
    case (Leaves(f, _, _), Leaves(g, _, _)) => f == g
    case (Objects(x), Objects(y)) => SameShape(x, y)
    case _ => false
  }

  /** What is declared at one place: a name, and which of the four sorts of field it is. */
  datatype Sort = OneOf(form: Form) | Nested | ManyOf(form: Form) | ManyNested

  datatype Facet = Facet(name: string, sort: Sort)

  function SortOf(kind: Kind): Sort {
    match kind
    case Leaf(form, _, _) => OneOf(form)
    case Group(_) => Nested
    case Leaves(form, _, _) => ManyOf(form)
    case Objects(_) => ManyNested
  }

  /** The place at a list of positions, from declaration to nested declaration. */
  ghost function FacetAt(shape: Shape, path: seq<nat>): Option<Facet>
    decreases |path|
  {
    if path == [] || path[0] >= |shape.decls| then None
    else
      var d := shape.decls[path[0]];
      if |path| == 1 then Some(Facet(d.name, SortOf(d.kind)))
      else
        match d.kind
        case Group(inner) => FacetAt(inner, path[1..])
        case Objects(element) => FacetAt(element, path[1..])
        case _ => None
  }

  lemma {:induction false} SameFacets(a: Shape, b: Shape, path: seq<nat>)
    requires SameShape(a, b)
    ensures FacetAt(a, path) == FacetAt(b, path)
    decreases |path|
  {
    if path != [] && path[0] < |a.decls| {
      var x, y := a.decls[path[0]].kind, b.decls[path[0]].kind;
      assert SameKind(x, y);
      if x.Group? {
        SameFacets(x.inner, y.inner, path[1..]);
      } else if x.Objects? {
        SameFacets(x.element, y.element, path[1..]);
      }
    }
  }

  lemma {:induction false} FacetsSame(a: Shape, b: Shape)
    requires Agree(a, b)
    ensures SameShape(a, b)
    decreases a
  {
    assert FacetAt(a, [|a.decls|]) == FacetAt(b, [|a.decls|]);
    assert FacetAt(a, [|b.decls|]) == FacetAt(b, [|b.decls|]);
    forall i | 0 <= i < |a.decls|
      ensures a.decls[i].name == b.decls[i].name && SameKind(a.decls[i].kind, b.decls[i].kind)
    {
      var x, y := a.decls[i].kind, b.decls[i].kind;
      assert FacetAt(a, [i]) == FacetAt(b, [i]);
      if x.Group? || x.Objects? {
        var inner, other := if x.Group? then x.inner else x.element, if y.Group? then y.inner else y.element;
        assert Agree(inner, other) by {
          forall path: seq<nat> ensures FacetAt(inner, path) == FacetAt(other, path) {
            assert ([i] + path)[1..] == path;
            assert FacetAt(a, [i] + path) == FacetAt(b, [i] + path);
          }
        }
        FacetsSame(inner, other);
      }
    }
  }

  /** Every place of the one is, by name and sort, that place of the other. */
  ghost predicate Agree(a: Shape, b: Shape) {
    forall path: seq<nat> :: FacetAt(a, path) == FacetAt(b, path)
  }

  /** Two declarations are the same shape exactly when they agree at every place; requiredness, defaults and
      value sets make no difference. */
  lemma SameShapeIff(a: Shape, b: Shape)
    ensures SameShape(a, b) <==> Agree(a, b)
  {
    hide SameShape;
    if SameShape(a, b) {
      forall path: seq<nat> ensures FacetAt(a, path) == FacetAt(b, path) {
        SameFacets(a, b, path);
      }
    } else if Agree(a, b) {
      FacetsSame(a, b);
    }
  }

  /** Whichever of two agreeing declarations it goes by, the merge is the same. */
  lemma {:induction false} SameShapeCarriesAlike(a: Shape, b: Shape, from: Node, into: Node)
    requires SameShape(a, b)
    ensures Carry(a, from, into) == Carry(b, from, into)
    decreases from, 1, 0
  {
    if from.Obj? && into.Obj? {
      SameUpTo(a, b, from, into, |from.entries|);
    }
  }

  lemma {:induction false} SameUpTo(a: Shape, b: Shape, from: Node, into: Node, n: nat)
    requires SameShape(a, b) && from.Obj? && into.Obj? && n <= |from.entries|
    ensures CarryUpTo(a, from, into, n) == CarryUpTo(b, from, into, n)
    decreases from, 0, n
  {
    hide Settled;
    if n > 0 {
      SameUpTo(a, b, from, into, n - 1);
      var pair := from.entries[n - 1];
      SameSettled(a, b, pair, Find(CarryUpTo(a, from, into, n - 1), pair.key));
    }
  }

  lemma {:induction false} SameSettled(a: Shape, b: Shape, pair: Pair, held: Option<Node>)
    requires SameShape(a, b)
    ensures Settled(a, pair, held) == Settled(b, pair, held)
    decreases pair, 0
  {
    var d := Declared(a.decls, pair.key);
    if d.Some? {
      var x, y := a.decls[d.value].kind, b.decls[d.value].kind;
      assert SameKind(x, y);
      if x.Group? {
        SameShapeCarriesAlike(x.inner, y.inner, pair.value, if held.Some? then held.value else EMPTY_OBJECT);
      } else if x.Objects? && held.Some? && held.value.Arr? && pair.value.Arr? {
        SameItems(x.element, y.element, pair.value, held.value);
      }
    }
  }

  lemma {:induction false} SameItems(a: Shape, b: Shape, from: Node, into: Node)
    requires SameShape(a, b) && from.Arr? && into.Arr?
    ensures CarryItems(a, from, into) == CarryItems(b, from, into)
    decreases from, 0
  {
    forall i | 0 <= i < |into.items| && i < |from.items|
      ensures Carry(a, from.items[i], into.items[i]) == Carry(b, from.items[i], into.items[i])
    {
      SameShapeCarriesAlike(a, b, from.items[i], into.items[i]);
    }
    assert CarryItems(a, from, into).items == CarryItems(b, from, into).items;
  }
}
