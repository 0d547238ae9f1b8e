/** Filling a config from what it was saved as gives the values back. */
module ConfigRoundTrip {
  import opened Common
  import opened ConfigNode
  import opened ConfigShape

  /** What writing through entries keeps: values of the declared form, written ones inside the declared
      set, unwritten ones as declared. */
  ghost predicate Tidy(shape: Shape, vals: Values)
    requires Fits(shape, vals)
    decreases shape
  {
    forall i | 0 <= i < |shape.decls| :: TidyCell(shape.decls[i].kind, vals.cells[i])
  }

  ghost predicate TidyCell(kind: Kind, cell: Cell)
    requires FitsCell(kind, cell)
    decreases kind
  {
    match kind
    case Leaf(form, fallback, options) =>
      if cell.written then FormOf(cell.value) == form && Allows(options, cell.value)
      else cell.value == Initial(form, fallback)
    case Group(inner) => Tidy(inner, cell.inner)
    case Leaves(form, options, zero) =>
      && (!cell.written ==> cell.items == [])
      && forall i | 0 <= i < |cell.items| :: TidyItem(form, options, zero, cell.items[i])
    case Objects(element) =>
      && (!cell.written ==> cell.elements == [])
      && forall i | 0 <= i < |cell.elements| :: Tidy(element, cell.elements[i])
  }

  /** A fresh element of an array is the zero of its form, listed or not. */
  ghost predicate TidyItem(form: Form, options: seq<Scalar>, zero: string, v: Scalar) {
    FormOf(v) == form && (form == Text ==> Allows(options, v) || v == S(zero))
  }

  /** The same values everywhere; only the mark on a leaf at its default may differ. */
  ghost predicate SameValues(shape: Shape, a: Values, b: Values)
    requires Fits(shape, a) && Fits(shape, b)
    decreases shape
  {
    forall i | 0 <= i < |shape.decls| :: SameCell(shape.decls[i].kind, a.cells[i], b.cells[i])
  }

  ghost predicate SameCell(kind: Kind, a: Cell, b: Cell)
    requires FitsCell(kind, a) && FitsCell(kind, b)
    decreases kind
  {
    match kind
    case Leaf(_, fallback, _) => a.value == b.value && (fallback.None? ==> a.written == b.written)
    case Group(inner) => SameValues(inner, a.inner, b.inner)
    case Leaves(_, _, _) => a == b
    case Objects(element) =>
      && a.written == b.written && |a.elements| == |b.elements|
      && forall i | 0 <= i < |a.elements| :: SameValues(element, a.elements[i], b.elements[i])
  }

  // ----- What a saved document holds -----

  lemma {:induction false} SaveUpToFind(shape: Shape, vals: Values, n: nat, key: string)
    requires Fits(shape, vals) && UniqueNames(shape) && n <= |shape.decls|
    ensures DistinctKeys(Entries(SaveUpTo(shape, vals, n)))
    ensures Find(SaveUpTo(shape, vals, n), key) ==
            var d := Declared(shape.decls, key);
            if d.Some? && d.value < n then SaveCell(shape.decls[d.value].kind, vals.cells[d.value]) else None
  {
    hide SaveCell, PutEntry, Lookup;
    if n == 0 {
      assert Lookup([], key) == None;
    } else {
      SaveUpToFind(shape, vals, n - 1, key);
      DeclaredAt(shape, n - 1);
      var before := SaveUpTo(shape, vals, n - 1);
      var saved := SaveCell(shape.decls[n - 1].kind, vals.cells[n - 1]);
      if saved.Some? {
        LookupPut(Entries(before), shape.decls[n - 1].name, saved.value, key);
        PutKeys(Entries(before), shape.decls[n - 1].name, saved.value);
      }
    }
  }

  lemma DeclaredAt(shape: Shape, i: nat)
    requires UniqueNames(shape) && i < |shape.decls|
    ensures Declared(shape.decls, shape.decls[i].name) == Some(i)
  {}

  /** A saved document holds under each declared name what its field had to say, and nothing else. */
  lemma SaveFind(shape: Shape, vals: Values, key: string)
    requires Fits(shape, vals) && UniqueNames(shape)
    ensures DistinctKeys(Entries(Save(shape, vals)))
    ensures Find(Save(shape, vals), key) ==
            var d := Declared(shape.decls, key);
            if d.Some? then SaveCell(shape.decls[d.value].kind, vals.cells[d.value]) else None
  {
    SaveUpToFind(shape, vals, |shape.decls|, key);
  }

  /** The field has something to say: a scalar that was written and is required or off its default, an array
      that was sized, a group one of whose fields has. */
  ghost predicate Speaks(shape: Shape, vals: Values)
    requires Fits(shape, vals)
    decreases shape
  {
    exists i :: 0 <= i < |shape.decls| && SpeaksIn(shape.decls[i].kind, vals.cells[i])
  }

  ghost predicate SpeaksIn(kind: Kind, cell: Cell)
    requires FitsCell(kind, cell)
    decreases kind
  {
    match kind
    case Leaf(_, fallback, _) => cell.written && fallback != Some(cell.value)
    case Group(inner) => Speaks(inner, cell.inner)
    case Leaves(_, _, _) => cell.written
    case Objects(_) => cell.written
  }

  /** The document says of these values what there is to say, and nothing else: its keys are the names of the
      fields that speak, a scalar is spelled in its own form, and an array has all its elements. */
  ghost predicate SavedFrom(shape: Shape, vals: Values, doc: Node)
    requires Fits(shape, vals)
    decreases shape
  {
    && doc.Obj? && DistinctKeys(doc.entries)
    && (forall key :: Find(doc, key).Some? ==> exists i :: 0 <= i < |shape.decls| && shape.decls[i].name == key)
    && forall i | 0 <= i < |shape.decls| ::
         SavedFromIn(shape.decls[i].kind, vals.cells[i], Find(doc, shape.decls[i].name))
  }

  ghost predicate SavedFromIn(kind: Kind, cell: Cell, found: Option<Node>)
    requires FitsCell(kind, cell)
    decreases kind
  {
    if !SpeaksIn(kind, cell) then found == None
    else
      && found.Some?
      && var n := found.value;
         match kind
         case Leaf(_, _, _) => SpelledAs(n, cell.value)
         case Group(inner) => SavedFrom(inner, cell.inner, n)
         case Leaves(_, _, _) =>
           n.Arr? && |n.items| == |cell.items| && forall i | 0 <= i < |n.items| :: SpelledAs(n.items[i], cell.items[i])
         case Objects(element) =>
           && n.Arr? && |n.items| == |cell.elements|
           && forall i | 0 <= i < |n.items| :: SavedFrom(element, cell.elements[i], n.items[i])
  }

  /** The value, in the document's form of its own: a real is not written as a whole number. */
  ghost predicate SpelledAs(n: Node, v: Scalar) {
    Spells(n, v) && (v.R? ==> n.Real?)
  }

  lemma {:induction false} SaveSays(shape: Shape, vals: Values)
    requires Fits(shape, vals) && UniqueNames(shape)
    ensures SavedFrom(shape, vals, Save(shape, vals))
    ensures Entries(Save(shape, vals)) != [] <==> Speaks(shape, vals)
    decreases shape, 0
  {
    hide SavedFromIn, SaveCell, SpeaksIn, Lookup;
    var doc := Save(shape, vals);
    SaveFind(shape, vals, "");
    forall key ensures Find(doc, key).Some? ==> exists i :: 0 <= i < |shape.decls| && shape.decls[i].name == key {
      SaveFind(shape, vals, key);
    }
    forall i | 0 <= i < |shape.decls|
      ensures Find(doc, shape.decls[i].name) == SaveCell(shape.decls[i].kind, vals.cells[i])
      ensures SavedFromIn(shape.decls[i].kind, vals.cells[i], Find(doc, shape.decls[i].name))
      ensures SaveCell(shape.decls[i].kind, vals.cells[i]).Some? <==> SpeaksIn(shape.decls[i].kind, vals.cells[i])
    {
      DeclaredAt(shape, i);
      SaveFind(shape, vals, shape.decls[i].name);
      assert UniqueNamesIn(shape.decls[i].kind);
      SaveCellSays(shape.decls[i].kind, vals.cells[i]);
    }
    if Entries(doc) != [] {
      assert Find(doc, Entries(doc)[0].key).Some?;
    }
  }

  lemma {:induction false} SaveCellSays(kind: Kind, cell: Cell)
    requires FitsCell(kind, cell) && UniqueNamesIn(kind)
    ensures SavedFromIn(kind, cell, SaveCell(kind, cell))
    ensures SaveCell(kind, cell).Some? <==> SpeaksIn(kind, cell)
    decreases kind, 0
  {
    hide SavedFrom, Speaks, Save;
    match kind
    case Leaf(_, _, _) => WrittenSpells(cell.value);
    case Group(inner) => SaveSays(inner, cell.inner);
    case Leaves(_, _, _) =>
    case Objects(element) =>
      forall i | 0 <= i < |cell.elements|
        ensures SavedFrom(element, cell.elements[i], Save(element, cell.elements[i]))
      {
        SaveSays(element, cell.elements[i]);
      }
  }

  // ----- Load after save -----

  /** Filling a fresh config from what was saved gives every value back, and never throws. */
  lemma {:induction false} LoadSave(shape: Shape, vals: Values)
    requires Fits(shape, vals) && Tidy(shape, vals) && UniqueNames(shape)
    ensures SameValues(shape, Load(shape, Fresh(shape), Save(shape, vals)), vals)
    ensures !HasOutsider(shape, Save(shape, vals))
    decreases shape, 0
  {
    var doc := Save(shape, vals);
    var back := Load(shape, Fresh(shape), doc);
    forall i | 0 <= i < |shape.decls|
      ensures SameCell(shape.decls[i].kind, back.cells[i], vals.cells[i])
      ensures !OutsiderIn(shape.decls[i].kind, Find(doc, shape.decls[i].name))
    {
      DeclaredAt(shape, i);
      SaveFind(shape, vals, shape.decls[i].name);
      assert UniqueNamesIn(shape.decls[i].kind) && TidyCell(shape.decls[i].kind, vals.cells[i]);
      LoadSaveCell(shape.decls[i].kind, vals.cells[i]);
    }
  }

  lemma {:induction false} LoadSaveCell(kind: Kind, cell: Cell)
    requires FitsCell(kind, cell) && TidyCell(kind, cell) && UniqueNamesIn(kind)
    ensures SameCell(kind, LoadCell(kind, FreshCell(kind), SaveCell(kind, cell)), cell)
    ensures !OutsiderIn(kind, SaveCell(kind, cell))
    decreases kind, 0
  {
    match kind
    case Leaf(form, fallback, options) =>
    case Group(inner) =>
      LoadSave(inner, cell.inner);
      if Entries(Save(inner, cell.inner)) == [] {
        LoadNothing(inner, Fresh(inner), Save(inner, cell.inner));
      }
    case Leaves(form, options, _) =>
    case Objects(element) =>
      forall i | 0 <= i < |cell.elements|
        ensures SameValues(element, Load(element, Fresh(element), Save(element, cell.elements[i])), cell.elements[i])
        ensures !HasOutsider(element, Save(element, cell.elements[i]))
      {
        LoadSave(element, cell.elements[i]);
      }
  }

  /** A document without entries leaves every field alone. */
  lemma LoadNothing(shape: Shape, vals: Values, doc: Node)
    requires Fits(shape, vals) && Entries(doc) == []
    ensures Load(shape, vals, doc) == vals
    ensures !HasOutsider(shape, doc)
  {
    assert forall i | 0 <= i < |shape.decls| :: Find(doc, shape.decls[i].name) == None;
    assert Load(shape, vals, doc).cells == vals.cells;
  }

  // ----- Tidiness -----

  lemma {:induction false} FreshTidy(shape: Shape)
    ensures Tidy(shape, Fresh(shape))
  {
    forall i | 0 <= i < |shape.decls| ensures TidyCell(shape.decls[i].kind, FreshCell(shape.decls[i].kind)) {
      if shape.decls[i].kind.Group? {
        FreshTidy(shape.decls[i].kind.inner);
      }
    }
  }
}
