/** When filling a config throws, what it leaves behind then, and what it reports otherwise. */
module ConfigFillTheorems {
  import opened Common
  import opened ConfigNode
  import opened ConfigShape
  import opened ConfigMisfits
  import opened ConfigRoundTrip
  import opened ConfigFill

  // ----- When it throws -----

  /** A scalar field other than a text, filled in its form but outside its declared set. */
  ghost predicate OutsideSet(shape: Shape, doc: Node, at: seq<Step>)
    decreases shape
  {
    at != [] && at[0].Key? &&
    exists i :: 0 <= i < |shape.decls| && shape.decls[i].name == at[0].key
                && OutsideSetCell(shape.decls[i].kind, Find(doc, at[0].key), at[1..])
  }

  ghost predicate OutsideSetCell(kind: Kind, found: Option<Node>, rest: seq<Step>)
    decreases kind
  {
    found.Some? && found != Some(Null) &&
    var n := found.value;
    match kind
    case Leaf(form, _, options) =>
      rest == [] && form != Text && exists v :: FormOf(v) == form && Spells(n, v) && options != [] && v !in options
    case Group(inner) => n.Obj? && OutsideSet(inner, n, rest)
    case Leaves(_, _, _) => false
    case Objects(element) =>
      n.Arr? && rest != [] && rest[0].Index? && rest[0].i < |n.items| && n.items[rest[0].i].Obj?
      && OutsideSet(element, n.items[rest[0].i], rest[1..])
  }

  lemma {:induction false} OutsiderHere(shape: Shape, doc: Node, at: seq<Step>)
    requires OutsideSet(shape, doc, at)
    ensures HasOutsider(shape, doc)
    decreases shape, 0
  {
    var i :| 0 <= i < |shape.decls| && shape.decls[i].name == at[0].key
             && OutsideSetCell(shape.decls[i].kind, Find(doc, at[0].key), at[1..]);
    var kind, n := shape.decls[i].kind, Find(doc, at[0].key).value;
    if kind.Group? {
      OutsiderHere(kind.inner, n, at[1..]);
    } else if kind.Objects? {
      OutsiderHere(kind.element, n.items[at[1..][0].i], at[1..][1..]);
    }
    assert OutsiderIn(kind, Find(doc, shape.decls[i].name));
  }

  lemma OutsideAt(shape: Shape, doc: Node, i: nat, rest: seq<Step>)
    requires i < |shape.decls| && OutsideSetCell(shape.decls[i].kind, Find(doc, shape.decls[i].name), rest)
    ensures OutsideSet(shape, doc, [Key(shape.decls[i].name)] + rest)
  {
    hide OutsideSetCell, Lookup;
    assert ([Key(shape.decls[i].name)] + rest)[1..] == rest;
  }

  lemma {:induction false} OutsiderPlace(shape: Shape, doc: Node)
    requires HasOutsider(shape, doc)
    ensures exists at :: OutsideSet(shape, doc, at)
    decreases shape, 1
  {
    hide OutsiderIn, OutsideSetCell, OutsideSet, Lookup;
    var i :| 0 <= i < |shape.decls| && OutsiderIn(shape.decls[i].kind, Find(doc, shape.decls[i].name));
    OutsiderPlaceIn(shape.decls[i].kind, Find(doc, shape.decls[i].name));
    var rest :| OutsideSetCell(shape.decls[i].kind, Find(doc, shape.decls[i].name), rest);
    OutsideAt(shape, doc, i, rest);
  }

  lemma {:induction false} OutsiderPlaceIn(kind: Kind, found: Option<Node>)
    requires OutsiderIn(kind, found)
    ensures exists rest :: OutsideSetCell(kind, found, rest)
    decreases kind, 0
  {
    hide OutsideSet, HasOutsider;
    match kind
    case Leaf(_, _, _) => assert OutsideSetCell(kind, found, []);
    case Group(inner) =>
      OutsiderPlace(inner, found.value);
      var rest :| OutsideSet(inner, found.value, rest);
      assert OutsideSetCell(kind, found, rest);
    case Objects(element) =>
      var items := found.value.items;
      var k :| 0 <= k < |items| && items[k].Obj? && HasOutsider(element, items[k]);
      OutsiderPlace(element, items[k]);
      var deeper :| OutsideSet(element, items[k], deeper);
      var rest := [Index(k)] + deeper;
      assert rest[1..] == deeper;
      assert OutsideSetCell(kind, found, rest);
  }

  lemma {:induction false} FillUpToIs(shape: Shape, vals: Values, doc: Node, n: nat)
    requires Fits(shape, vals) && n <= |shape.decls|
    ensures var f := FillUpTo(shape, vals, doc, n);
            && (f.threw <==> exists i :: 0 <= i < n && OutsiderIn(shape.decls[i].kind, Find(doc, shape.decls[i].name)))
            && (forall i | n <= i < |shape.decls| :: f.values.cells[i] == vals.cells[i])
            && (!f.threw ==> forall i | 0 <= i < n ::
                  f.values.cells[i] == LoadCell(shape.decls[i].kind, vals.cells[i], Find(doc, shape.decls[i].name)))
    decreases shape, n
  {
    hide FillCell, OutsiderIn, LoadCell, Find;
    if n > 0 {
      FillUpToIs(shape, vals, doc, n - 1);
      FillCellIs(shape.decls[n - 1].kind, vals.cells[n - 1], Find(doc, shape.decls[n - 1].name));
    }
  }

  lemma {:induction false} FillCellIs(kind: Kind, cell: Cell, found: Option<Node>)
    requires FitsCell(kind, cell)
    ensures var f := FillCell(kind, cell, found);
            (f.threw <==> OutsiderIn(kind, found)) && (!f.threw ==> f.cell == LoadCell(kind, cell, found))
    decreases kind, 1
  {
    if Absent(found) { return; }
    var n := found.value;
    match kind
    case Leaf(_, _, _) =>
    case Group(inner) => if n.Obj? { FillIs(inner, cell.inner, n); }
    case Leaves(_, _, _) =>
      if n.Arr? {
        assert FillCell(kind, cell, found).cell.items == LoadCell(kind, cell, found).items;
      }
    case Objects(element) =>
      if n.Arr? {
        FillElementsIs(element, Resized(element, cell.elements, |n.items|), n.items, |n.items|);
        if !FillCell(kind, cell, found).threw {
          assert FillCell(kind, cell, found).cell.elements == LoadCell(kind, cell, found).elements;
        }
      }
  }

  lemma {:induction false} FillElementsIs(element: Shape, held: seq<Values>, items: seq<Node>, n: nat)
    requires |held| == |items| && n <= |items| && AllFit(element, held)
    ensures var f := FillElements(element, held, items, n);
            && (f.threw <==> exists i :: 0 <= i < n && items[i].Obj? && HasOutsider(element, items[i]))
            && (forall i | n <= i < |items| :: f.elements[i] == held[i])
            && (!f.threw ==> forall i | 0 <= i < n :: f.elements[i] == LoadElement(element, held[i], items[i]))
    decreases element, |element.decls| + 2, n
  {
    hide Fill, HasOutsider, Load;
    if n > 0 {
      FillElementsIs(element, held, items, n - 1);
      FillIs(element, held[n - 1], items[n - 1]);
    }
  }

  /** Without an exception the values are those of the plain reading, and there is one exactly when some
      field holds a value it refuses. */
  lemma {:induction false} FillIs(shape: Shape, vals: Values, doc: Node)
    requires Fits(shape, vals)
    ensures var f := Fill(shape, vals, doc);
            (f.threw <==> HasOutsider(shape, doc)) && (!f.threw ==> f.values == Load(shape, vals, doc))
    decreases shape, |shape.decls| + 1
  {
    hide FillUpTo, OutsiderIn, LoadCell;
    var f := Fill(shape, vals, doc);
    FillUpToIs(shape, vals, doc, |shape.decls|);
    if !f.threw {
      assert f.values.cells == Load(shape, vals, doc).cells;
    }
  }

  /** load_fields promises never to throw for bad data. It does throw, whatever the config held, exactly on
      the documents that fill a field other than a text with a value of its form outside its declared set;
      on all others it fills what the plain reading says. */
  lemma LoadThrowsIff(shape: Shape, vals: Values, doc: Node)
    requires Fits(shape, vals)
    ensures Fill(shape, vals, doc).threw <==> exists at :: OutsideSet(shape, doc, at)
    ensures !Fill(shape, vals, doc).threw ==> Fill(shape, vals, doc).values == Load(shape, vals, doc)
  {
    hide HasOutsider, OutsideSet, Fill;
    FillIs(shape, vals, doc);
    if HasOutsider(shape, doc) {
      OutsiderPlace(shape, doc);
    }
    if at: seq<Step> :| OutsideSet(shape, doc, at) {
      OutsiderHere(shape, doc, at);
    }
  }

  /** The node says a value of the form that the set allows. */
  ghost predicate SaysAllowed(form: Form, options: seq<Scalar>, n: Node) {
    exists v :: FormOf(v) == form && Spells(n, v) && (options == [] || v in options)
  }

  ghost predicate SaysOne(form: Form, n: Node) {
    exists v :: FormOf(v) == form && Spells(n, v)
  }

  /** What filling makes of the values, said by what the document says: a field given nothing, null, or what it
      does not take stays as it was; any other holds what the document says and is marked as written. */
  ghost predicate FilledFrom(shape: Shape, was: Values, doc: Node, now: Values)
    requires Fits(shape, was) && Fits(shape, now)
    decreases shape
  {
    forall i | 0 <= i < |shape.decls| ::
      FilledFromIn(shape.decls[i].kind, was.cells[i], Find(doc, shape.decls[i].name), now.cells[i])
  }

  ghost predicate FilledFromIn(kind: Kind, was: Cell, found: Option<Node>, now: Cell)
    requires FitsCell(kind, was) && FitsCell(kind, now)
    decreases kind
  {
    if found == None || found == Some(Null) then now == was else
    var n := found.value;
    match kind
    case Leaf(form, _, options) =>
      if SaysAllowed(form, options, n)
      then now.written && FormOf(now.value) == form && Spells(n, now.value) else now == was
    case Group(inner) => if n.Obj? then FilledFrom(inner, was.inner, n, now.inner) else now == was
    case Leaves(form, options, zero) =>
      if !n.Arr? then now == was
      else
        && now.written && |now.items| == |n.items|
        && forall i | 0 <= i < |n.items| ::
             if (if form == Text then SaysAllowed(form, options, n.items[i]) else SaysOne(form, n.items[i]))
             then FormOf(now.items[i]) == form && Spells(n.items[i], now.items[i])
             else now.items[i] == if i < |was.items| then was.items[i] else FreshItem(form, zero)
    case Objects(element) =>
      if !n.Arr? then now == was
      else
        && now.written && |now.elements| == |n.items|
        && forall i | 0 <= i < |n.items| ::
             var held := if i < |was.elements| then was.elements[i] else Fresh(element);
             if n.items[i].Obj? then FilledFrom(element, held, n.items[i], now.elements[i]) else now.elements[i] == held
  }

  /** Reading one scalar, by what the node says. */
  lemma ReadSays(form: Form, options: seq<Scalar>, n: Node)
    ensures Read(form, n).Some? <==> SaysOne(form, n)
    ensures Read(form, n).Some? && Allows(options, Read(form, n).value) <==> SaysAllowed(form, options, n)
    ensures Read(form, n).Some? ==> FormOf(Read(form, n).value) == form && Spells(n, Read(form, n).value)
  {
    forall v ensures Read(form, n) == Some(v) <==> FormOf(v) == form && Spells(n, v) {
      ReadSpells(form, n, v);
    }
    if Read(form, n).Some? {
      var v := Read(form, n).value;
      assert Read(form, n) == Some(v);
    }
  }

  lemma {:induction false} LoadFillsFrom(shape: Shape, was: Values, doc: Node)
    requires Fits(shape, was)
    ensures FilledFrom(shape, was, doc, Load(shape, was, doc))
    decreases shape, 0
  {
    hide LoadCell, FilledFromIn, Lookup;
    forall i | 0 <= i < |shape.decls|
      ensures FilledFromIn(shape.decls[i].kind, was.cells[i], Find(doc, shape.decls[i].name),
                           LoadCell(shape.decls[i].kind, was.cells[i], Find(doc, shape.decls[i].name)))
    {
      CellFillsFrom(shape.decls[i].kind, was.cells[i], Find(doc, shape.decls[i].name));
    }
  }

  lemma {:induction false} CellFillsFrom(kind: Kind, was: Cell, found: Option<Node>)
    requires FitsCell(kind, was)
    ensures FilledFromIn(kind, was, found, LoadCell(kind, was, found))
    decreases kind, 0
  {
    hide Read, SaysAllowed, SaysOne, Spells, FilledFrom, Load;
    if found == None || found == Some(Null) { return; }
    var n := found.value;
    match kind
    case Leaf(form, _, options) => ReadSays(form, options, n);
    case Group(inner) => if n.Obj? { LoadFillsFrom(inner, was.inner, n); }
    case Leaves(form, options, _) =>
      if n.Arr? {
        forall i | 0 <= i < |n.items| {
          ReadSays(form, options, n.items[i]);
        }
      }
    case Objects(element) =>
      if n.Arr? {
        forall i | 0 <= i < |n.items| && n.items[i].Obj?
          ensures var held := if i < |was.elements| then was.elements[i] else Fresh(element);
                  FilledFrom(element, held, n.items[i], Load(element, held, n.items[i]))
        {
          LoadFillsFrom(element, if i < |was.elements| then was.elements[i] else Fresh(element), n.items[i]);
        }
      }
  }

  /** Whatever the document, and whatever the config held: filling that no exception ends does to every field
      what the document says, at every depth. */
  lemma FillsFrom(shape: Shape, was: Values, doc: Node)
    requires Fits(shape, was) && !Fill(shape, was, doc).threw
    ensures FilledFrom(shape, was, doc, Fill(shape, was, doc).values)
  {
    hide Fill, FilledFrom;
    LoadThrowsIff(shape, was, doc);
    LoadFillsFrom(shape, was, doc);
  }

  lemma FreshFilled(shape: Shape, doc: Node)
    ensures Throws(shape, doc) <==> HasOutsider(shape, doc)
    ensures !Throws(shape, doc) ==> Filled(shape, doc) == Load(shape, Fresh(shape), doc)
  {
    hide Fill;
    FillIs(shape, Fresh(shape), doc);
  }

  /** And the editor's own check lets such a document through. */
  lemma AdmittedYetThrows() returns (shape: Shape, doc: Node)
    ensures UniqueNames(shape) && UniqueKeys(doc)
    ensures AllMisfits(shape, doc) == [] && Throws(shape, doc)
  {
    var kind := Leaf(Integer, Some(I(2)), [I(1), I(2), I(6)]);
    shape := Shape([Decl("channels", kind)]);
    doc := Obj([Pair("channels", Int(5))]);
    assert Find(doc, "channels") == Some(Int(5));
    assert OutsiderIn(kind, Find(doc, shape.decls[0].name));
    assert ConformsCell(kind, Find(doc, "channels"));
    NoMisfitsIffConforms(shape, doc);
    FreshFilled(shape, doc);
  }

  // ----- What it leaves behind -----

  /** Filling `vals` stopped at the address `at` with `r`: the fields and elements before the refused value
      are filled, the refused field and all after it are as they were. */
  ghost predicate Stopped(shape: Shape, vals: Values, doc: Node, r: Values, at: seq<Step>)
    requires Fits(shape, vals) && Fits(shape, r)
    decreases shape, 1
  {
    at != [] && at[0].Key? && exists i :: 0 <= i < |shape.decls| && StoppedField(shape, vals, doc, r, at, i)
  }

  ghost predicate StoppedField(shape: Shape, vals: Values, doc: Node, r: Values, at: seq<Step>, i: nat)
    requires Fits(shape, vals) && Fits(shape, r) && at != [] && at[0].Key? && i < |shape.decls|
    decreases shape, 0
  {
    && shape.decls[i].name == at[0].key
    && (forall j | 0 <= j < i ::
          && !OutsiderIn(shape.decls[j].kind, Find(doc, shape.decls[j].name))
          && r.cells[j] == LoadCell(shape.decls[j].kind, vals.cells[j], Find(doc, shape.decls[j].name)))
    && (forall j | i < j < |shape.decls| :: r.cells[j] == vals.cells[j])
    && StoppedCell(shape.decls[i].kind, vals.cells[i], Find(doc, shape.decls[i].name), r.cells[i], at[1..])
  }

  ghost predicate StoppedCell(kind: Kind, cell: Cell, found: Option<Node>, r: Cell, rest: seq<Step>)
    requires FitsCell(kind, cell) && FitsCell(kind, r)
    decreases kind
  {
    OutsiderIn(kind, found) &&
    var n := found.value;
    match kind
    case Leaf(_, _, _) => rest == [] && r == cell
    case Group(inner) => Stopped(inner, cell.inner, n, r.inner, rest)
    case Leaves(_, _, _) => false
    case Objects(element) =>
      && r.written && |r.elements| == |n.items|
      && rest != [] && rest[0].Index? && rest[0].i < |n.items| && n.items[rest[0].i].Obj?
      && var k := rest[0].i;
      && (forall j | 0 <= j < k ::
            && !(n.items[j].Obj? && HasOutsider(element, n.items[j]))
            && r.elements[j] == LoadElement(element, HeldAt(element, cell.elements, j), n.items[j]))
      && (forall j | k < j < |n.items| :: r.elements[j] == HeldAt(element, cell.elements, j))
      && Stopped(element, HeldAt(element, cell.elements, k), n.items[k], r.elements[k], rest[1..])
  }

  /** From the field that stopped to the whole config. */
  lemma StoppedHere(shape: Shape, vals: Values, doc: Node, r: Values, i: nat, rest: seq<Step>)
    requires Fits(shape, vals) && Fits(shape, r) && i < |shape.decls|
    requires forall j | 0 <= j < i ::
               && !OutsiderIn(shape.decls[j].kind, Find(doc, shape.decls[j].name))
               && r.cells[j] == LoadCell(shape.decls[j].kind, vals.cells[j], Find(doc, shape.decls[j].name))
    requires forall j | i < j < |shape.decls| :: r.cells[j] == vals.cells[j]
    requires FitsCell(shape.decls[i].kind, vals.cells[i]) && FitsCell(shape.decls[i].kind, r.cells[i])
    requires OutsideSetCell(shape.decls[i].kind, Find(doc, shape.decls[i].name), rest)
    requires StoppedCell(shape.decls[i].kind, vals.cells[i], Find(doc, shape.decls[i].name), r.cells[i], rest)
    ensures OutsideSet(shape, doc, [Key(shape.decls[i].name)] + rest)
    ensures Stopped(shape, vals, doc, r, [Key(shape.decls[i].name)] + rest)
  {
    hide StoppedCell, OutsideSetCell, OutsiderIn, LoadCell, Lookup;
    var at := [Key(shape.decls[i].name)] + rest;
    assert at[1..] == rest;
    assert StoppedField(shape, vals, doc, r, at, i);
  }

  lemma {:induction false} FillUpToStops(shape: Shape, vals: Values, doc: Node, n: nat)
    requires Fits(shape, vals) && n <= |shape.decls| && FillUpTo(shape, vals, doc, n).threw
    ensures exists at ::
              OutsideSet(shape, doc, at) && Stopped(shape, vals, doc, FillUpTo(shape, vals, doc, n).values, at)
    decreases shape, n
  {
    hide FillCell, Stopped, StoppedCell, OutsideSet, OutsideSetCell, OutsiderIn, LoadCell, Lookup;
    if FillUpTo(shape, vals, doc, n - 1).threw {
      FillUpToStops(shape, vals, doc, n - 1);
    } else {
      var kind, found := shape.decls[n - 1].kind, Find(doc, shape.decls[n - 1].name);
      FillUpToIs(shape, vals, doc, n - 1);
      FillCellStops(kind, vals.cells[n - 1], found);
      var rest :|
        && OutsideSetCell(kind, found, rest)
        && StoppedCell(kind, vals.cells[n - 1], found, FillCell(kind, vals.cells[n - 1], found).cell, rest);
      StoppedHere(shape, vals, doc, FillUpTo(shape, vals, doc, n).values, n - 1, rest);
    }
  }

  /** An exception leaves the config filled up to the refused value, which holds a value outside its set,
      and untouched from there on. */
  lemma {:induction false} FillStops(shape: Shape, vals: Values, doc: Node)
    requires Fits(shape, vals) && Fill(shape, vals, doc).threw
    ensures exists at :: OutsideSet(shape, doc, at) && Stopped(shape, vals, doc, Fill(shape, vals, doc).values, at)
    decreases shape, |shape.decls| + 1
  {
    hide FillUpTo, Stopped, OutsideSet;
    FillUpToStops(shape, vals, doc, |shape.decls|);
  }

  lemma {:induction false} FillCellStops(kind: Kind, cell: Cell, found: Option<Node>)
    requires FitsCell(kind, cell) && FillCell(kind, cell, found).threw
    ensures exists rest ::
              && OutsideSetCell(kind, found, rest)
              && StoppedCell(kind, cell, found, FillCell(kind, cell, found).cell, rest)
    decreases kind, 1
  {
    FillCellIs(kind, cell, found);
    var n, r := found.value, FillCell(kind, cell, found).cell;
    match kind
    case Leaf(_, _, _) =>
      assert OutsideSetCell(kind, found, []) && StoppedCell(kind, cell, found, r, []);
    case Group(inner) =>
      FillStops(inner, cell.inner, n);
      var at :| OutsideSet(inner, n, at) && Stopped(inner, cell.inner, n, Fill(inner, cell.inner, n).values, at);
      assert OutsideSetCell(kind, found, at) && StoppedCell(kind, cell, found, r, at);
    case Objects(element) =>
      FillListStops(element, cell, n.items, |n.items|);
  }

  lemma {:induction false} FillListStops(element: Shape, cell: Cell, items: seq<Node>, n: nat)
    requires FitsCell(Objects(element), cell) && n <= |items|
    requires FillElements(element, Resized(element, cell.elements, |items|), items, n).threw
    requires OutsiderIn(Objects(element), Some(Arr(items)))
    ensures var f := FillElements(element, Resized(element, cell.elements, |items|), items, n);
            exists rest ::
              && OutsideSetCell(Objects(element), Some(Arr(items)), rest)
              && StoppedCell(Objects(element), cell, Some(Arr(items)), ObjectsCell(f.elements, true), rest)
    decreases element, |element.decls| + 2, n
  {
    hide Fill, Stopped, OutsideSet, Load, OutsideSetCell, StoppedCell, OutsiderIn, HasOutsider;
    var held := Resized(element, cell.elements, |items|);
    if FillElements(element, held, items, n - 1).threw {
      FillListStops(element, cell, items, n - 1);
    } else {
      FillElementsIs(element, held, items, n - 1);
      FillStops(element, held[n - 1], items[n - 1]);
      var left := Fill(element, held[n - 1], items[n - 1]).values;
      var deeper :|
        OutsideSet(element, items[n - 1], deeper) && Stopped(element, held[n - 1], items[n - 1], left, deeper);
      var rest := [Index(n - 1)] + deeper;
      assert rest[1..] == deeper;
      StoppedList(element, cell, items, FillElements(element, held, items, n).elements, rest);
    }
  }

  lemma StoppedList(element: Shape, cell: Cell, items: seq<Node>, r: seq<Values>, rest: seq<Step>)
    requires FitsCell(Objects(element), cell) && AllFit(element, r) && |r| == |items|
    requires OutsiderIn(Objects(element), Some(Arr(items)))
    requires rest != [] && rest[0].Index? && rest[0].i < |items| && items[rest[0].i].Obj?
    requires forall j | 0 <= j < rest[0].i ::
               && !(items[j].Obj? && HasOutsider(element, items[j]))
               && r[j] == LoadElement(element, HeldAt(element, cell.elements, j), items[j])
    requires forall j | rest[0].i < j < |items| :: r[j] == HeldAt(element, cell.elements, j)
    requires OutsideSet(element, items[rest[0].i], rest[1..])
    requires Stopped(element, HeldAt(element, cell.elements, rest[0].i), items[rest[0].i], r[rest[0].i], rest[1..])
    ensures OutsideSetCell(Objects(element), Some(Arr(items)), rest)
    ensures StoppedCell(Objects(element), cell, Some(Arr(items)), ObjectsCell(r, true), rest)
  {
    hide Stopped, OutsideSet, HasOutsider, OutsiderIn, Load;
  }

  // ----- What holds of the values whichever way it ends -----

  lemma {:induction false} FillTidy(shape: Shape, vals: Values, doc: Node, n: nat)
    requires Fits(shape, vals) && Tidy(shape, vals) && n <= |shape.decls|
    ensures Tidy(shape, FillUpTo(shape, vals, doc, n).values)
    decreases shape, n
  {
    hide FillCell, TidyCell;
    if n > 0 {
      FillTidy(shape, vals, doc, n - 1);
      var before := FillUpTo(shape, vals, doc, n - 1);
      FillCellTidy(shape.decls[n - 1].kind, before.values.cells[n - 1], Find(doc, shape.decls[n - 1].name));
    }
  }

  lemma {:induction false} FillCellTidy(kind: Kind, cell: Cell, found: Option<Node>)
    requires FitsCell(kind, cell) && TidyCell(kind, cell)
    ensures TidyCell(kind, FillCell(kind, cell, found).cell)
    decreases kind, 1
  {
    if Absent(found) { return; }
    var n := found.value;
    match kind
    case Leaf(_, _, _) =>
    case Group(inner) => if n.Obj? { FillTidy(inner, cell.inner, n, |inner.decls|); }
    case Leaves(form, options, zero) =>
      if n.Arr? {
        var held := ResizedItems(form, zero, cell.items, |n.items|);
        var now := FillCell(kind, cell, found).cell;
        forall i | 0 <= i < |now.items| ensures TidyItem(form, options, zero, now.items[i]) {
          assert held[i] == if i < |cell.items| then cell.items[i] else FreshItem(form, zero);
          assert i < |cell.items| ==> TidyItem(form, options, zero, cell.items[i]);
          assert now.items[i] == LoadItem(form, options, held[i], n.items[i]);
        }
      }
    case Objects(element) =>
      if n.Arr? {
        FreshTidy(element);
        var held := Resized(element, cell.elements, |n.items|);
        FillElementsTidy(element, held, n.items, |n.items|);
      }
  }

  lemma {:induction false} FillElementsTidy(element: Shape, held: seq<Values>, items: seq<Node>, n: nat)
    requires |held| == |items| && n <= |items| && AllFit(element, held)
    requires forall i | 0 <= i < |held| :: Tidy(element, held[i])
    ensures forall i | 0 <= i < |held| :: Tidy(element, FillElements(element, held, items, n).elements[i])
    decreases element, |element.decls| + 2, n
  {
    if n > 0 {
      FillElementsTidy(element, held, items, n - 1);
      var before := FillElements(element, held, items, n - 1);
      FillTidy(element, before.elements[n - 1], items[n - 1], |element.decls|);
    }
  }

  /** Whatever the document says and however filling ends, the values are as writing through entries leaves
      them. */
  lemma FilledTidy(shape: Shape, doc: Node)
    ensures Tidy(shape, Filled(shape, doc))
  {
    FreshTidy(shape);
    FillTidy(shape, Fresh(shape), doc, |shape.decls|);
  }

  // ----- The same lines as the editor's check -----

  /** The lines among the problems that the editor's check says too. */
  function MisfitLines(problems: seq<Problem>): seq<Line> {
    if problems == [] then []
    else
      var n := |problems| - 1;
      MisfitLines(problems[..n]) + (if problems[n].Misfit? then [problems[n].line] else [])
  }

  lemma {:induction false} LinesJoin(a: seq<Problem>, b: seq<Problem>)
    ensures MisfitLines(a + b) == MisfitLines(a) + MisfitLines(b)
  {
    if b == [] {
      assert a + b == a;
    } else {
      LinesJoin(a, b[..|b| - 1]);
      assert (a + b)[..|a + b| - 1] == a + b[..|b| - 1];
    }
  }

  lemma {:induction false} LinesReported(lines: seq<Line>)
    ensures MisfitLines(Reported(lines)) == lines
  {
    if lines != [] {
      var n := |lines| - 1;
      LinesReported(lines[..n]);
      assert Reported(lines)[..n] == Reported(lines[..n]);
    }
  }

  lemma {:induction false} NoLinesOfStrangers(shape: Shape, entries: seq<Pair>, before: seq<Step>, n: nat)
    requires n <= |entries|
    ensures MisfitLines(Strangers(shape, entries, before, n)) == []
  {
    if n > 0 {
      var rest := Strangers(shape, entries, before, n - 1);
      var key := entries[n - 1].key;
      NoLinesOfStrangers(shape, entries, before, n - 1);
      var last := if Declared(shape.decls, key).None? then [Unknown(before + [Key(key)])] else [];
      assert last != [] ==> last[..0] == [];
      assert MisfitLines(last) == [];
      LinesJoin(rest, last);
      assert Strangers(shape, entries, before, n) == rest + last;
    }
  }

  lemma {:induction false} FieldLinesOf(shape: Shape, doc: Node, before: seq<Step>, n: nat)
    requires n <= |shape.decls|
    ensures MisfitLines(FieldProblems(shape, doc, before, n)) == MisfitsUpTo(shape, doc, before, n)
    decreases shape, n
  {
    hide CellProblems, FieldLines;
    if n > 0 {
      var d := shape.decls[n - 1];
      FieldLinesOf(shape, doc, before, n - 1);
      CellLinesOf(d.kind, Find(doc, d.name), before + [Key(d.name)]);
      var here := CellProblems(d.kind, Find(doc, d.name), before + [Key(d.name)]);
      LinesJoin(FieldProblems(shape, doc, before, n - 1), here);
    }
  }

  lemma {:induction false} LinesOf(shape: Shape, doc: Node, before: seq<Step>)
    ensures MisfitLines(Problems(shape, doc, before)) == Misfits(shape, doc, before)
    decreases shape, |shape.decls| + 1
  {
    FieldLinesOf(shape, doc, before, |shape.decls|);
    NoLinesOfStrangers(shape, Entries(doc), before, |Entries(doc)|);
    LinesJoin(FieldProblems(shape, doc, before, |shape.decls|), Strangers(shape, Entries(doc), before, |Entries(doc)|));
  }

  lemma {:induction false} CellLinesOf(kind: Kind, found: Option<Node>, at: seq<Step>)
    ensures MisfitLines(CellProblems(kind, found, at)) == FieldLines(kind, found, at)
    decreases kind, 1
  {
    if Absent(found) { return; }
    var n := found.value;
    match kind
    case Leaf(form, _, options) => LinesReported(ScalarLines(form, options, n, at));
    case Group(inner) => if n.Obj? { LinesOf(inner, n, at); }
    case _ => if n.Arr? { ItemLinesOf(kind, n.items, at, |n.items|); }
  }

  lemma {:induction false} ItemLinesOf(kind: Kind, items: seq<Node>, at: seq<Step>, n: nat)
    requires (kind.Leaves? || kind.Objects?) && n <= |items|
    ensures MisfitLines(ItemProblems(kind, items, at, n)) == ItemLines(kind, items, at, n)
    decreases kind, 0, n
  {
    if n > 0 {
      var here := at + [Index(n - 1)];
      ItemLinesOf(kind, items, at, n - 1);
      if kind.Leaves? {
        LinesReported(ScalarLines(kind.form, kind.options, items[n - 1], here));
      } else if items[n - 1].Obj? {
        LinesOf(kind.element, items[n - 1], here);
      }
      LinesJoin(ItemProblems(kind, items, at, n - 1), OneItemProblems(kind, items[n - 1], here));
    }
  }

  /** For an object, or no document at all: the editor's check answers the very lines load_fields would
      report about it, in the same order, short of fields nobody filled and keys no field declares. */
  lemma MisfitsAreReported(shape: Shape, stored: Node)
    requires stored.Obj? || stored.Null?
    ensures AllMisfits(shape, stored) == MisfitLines(Problems(shape, stored, []))
  {
    LinesOf(shape, stored, []);
  }
}
