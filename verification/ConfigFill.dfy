/** Filling a config from a document as the host does it: entry by entry, stopping where an entry refuses
    its value with an exception. */
module ConfigFill {
  import opened Common
  import opened ConfigNode
  import opened ConfigShape
  import opened ConfigMisfits

  /** The values as they are when filling ends or an exception leaves it. */
  datatype Filling = Filling(values: Values, threw: bool)

  datatype CellFilling = CellFilling(cell: Cell, threw: bool)

  datatype ListFilling = ListFilling(elements: seq<Values>, threw: bool)

  ghost predicate AllFit(element: Shape, elements: seq<Values>) {
    forall i | 0 <= i < |elements| :: Fits(element, elements[i])
  }

  // ----- What it does -----

  function Fill(shape: Shape, vals: Values, doc: Node): (r: Filling)
    requires Fits(shape, vals)
    ensures Fits(shape, r.values)
    decreases shape, |shape.decls| + 1
  {
    FillUpTo(shape, vals, doc, |shape.decls|)
  }

  function FillUpTo(shape: Shape, vals: Values, doc: Node, n: nat): (r: Filling)
    requires Fits(shape, vals) && n <= |shape.decls|
    ensures Fits(shape, r.values)
    decreases shape, n
  {
    if n == 0 then Filling(vals, false)
    else
      var before := FillUpTo(shape, vals, doc, n - 1);
      if before.threw then before
      else
        var d := shape.decls[n - 1];
        var c := FillCell(d.kind, before.values.cells[n - 1], Find(doc, d.name));
        Filling(Values(before.values.cells[n - 1 := c.cell]), c.threw)
  }

  function FillCell(kind: Kind, cell: Cell, found: Option<Node>): (r: CellFilling)
    requires FitsCell(kind, cell)
    ensures FitsCell(kind, r.cell)
    decreases kind, 0
  {
    if Absent(found) then CellFilling(cell, false) else
    var n := found.value;
    match kind
    case Leaf(form, _, options) =>
      var v := Read(form, n);
      if v.None? then CellFilling(cell, false)
      else if Allows(options, v.value) then CellFilling(LeafCell(v.value, true), false)
      else CellFilling(cell, form != Text)
    case Group(inner) =>
      if !n.Obj? then CellFilling(cell, false)
      else
        var f := Fill(inner, cell.inner, n);
        CellFilling(GroupCell(f.values), f.threw)
    case Leaves(form, options, zero) =>
      if !n.Arr? then CellFilling(cell, false)
      else
        var items := FillItems(form, options, ResizedItems(form, zero, cell.items, |n.items|), n.items);
        CellFilling(LeavesCell(items, true), false)
    case Objects(element) =>
      if !n.Arr? then CellFilling(cell, false)
      else
        var f := FillElements(element, Resized(element, cell.elements, |n.items|), n.items, |n.items|);
        CellFilling(ObjectsCell(f.elements, true), f.threw)
  }

  function ResizedItems(form: Form, zero: string, items: seq<Scalar>, n: nat): seq<Scalar> {
    seq(n, i requires 0 <= i < n => if i < |items| then items[i] else FreshItem(form, zero))
  }

  function HeldAt(element: Shape, elements: seq<Values>, i: nat): (r: Values)
    requires AllFit(element, elements)
    ensures Fits(element, r)
  {
    if i < |elements| then elements[i] else Fresh(element)
  }

  function Resized(element: Shape, elements: seq<Values>, n: nat): (r: seq<Values>)
    requires AllFit(element, elements)
    ensures |r| == n && AllFit(element, r)
  {
    seq(n, i requires 0 <= i < n => HeldAt(element, elements, i))
  }

  function FillItems(form: Form, options: seq<Scalar>, held: seq<Scalar>, items: seq<Node>): seq<Scalar>
    requires |held| == |items|
  {
    seq(|items|, i requires 0 <= i < |items| => LoadItem(form, options, held[i], items[i]))
  }

  function FillElements(element: Shape, held: seq<Values>, items: seq<Node>, n: nat): (r: ListFilling)
    requires |held| == |items| && n <= |items| && AllFit(element, held)
    ensures |r.elements| == |held| && AllFit(element, r.elements)
    decreases element, |element.decls| + 2, n
  {
    if n == 0 then ListFilling(held, false)
    else
      var before := FillElements(element, held, items, n - 1);
      if before.threw || !items[n - 1].Obj? then before
      else
        var f := Fill(element, before.elements[n - 1], items[n - 1]);
        ListFilling(before.elements[n - 1 := f.values], f.threw)
  }

  /** load_fields on a fresh config: whether it throws, and the values it leaves either way. */
  predicate Throws(shape: Shape, doc: Node) {
    Fill(shape, Fresh(shape), doc).threw
  }

  function Filled(shape: Shape, doc: Node): (r: Values)
    ensures Fits(shape, r)
  {
    Fill(shape, Fresh(shape), doc).values
  }

  // ----- The problems it reports -----

  /** What is wrong with a document: a line the editor's check says too, a required field nobody filled, or
      a key no field declares. */
  datatype Problem = Misfit(line: Line) | Missing(at: seq<Step>) | Unknown(at: seq<Step>)

  function Reported(lines: seq<Line>): seq<Problem> {
    seq(|lines|, i requires 0 <= i < |lines| => Misfit(lines[i]))
  }

  function Problems(shape: Shape, doc: Node, before: seq<Step>): seq<Problem>
    decreases shape, |shape.decls| + 1
  {
    FieldProblems(shape, doc, before, |shape.decls|) + Strangers(shape, Entries(doc), before, |Entries(doc)|)
  }

  function FieldProblems(shape: Shape, doc: Node, before: seq<Step>, n: nat): seq<Problem>
    requires n <= |shape.decls|
    decreases shape, n
  {
    if n == 0 then []
    else
      var d := shape.decls[n - 1];
      FieldProblems(shape, doc, before, n - 1) + CellProblems(d.kind, Find(doc, d.name), before + [Key(d.name)])
  }

  function CellProblems(kind: Kind, found: Option<Node>, at: seq<Step>): seq<Problem>
    decreases kind, 0
  {
    if Absent(found) then (if kind.Leaf? && kind.fallback.None? then [Missing(at)] else [])
    else
      var n := found.value;
      match kind
      case Leaf(form, _, options) => Reported(ScalarLines(form, options, n, at))
      case Group(inner) => if !n.Obj? then [Misfit(Line(at, WrongForm(n)))] else Problems(inner, n, at)
      case Leaves(_, _, _) =>
        if !n.Arr? then [Misfit(Line(at, WrongForm(n)))] else ItemProblems(kind, n.items, at, |n.items|)
      case Objects(_) =>
        if !n.Arr? then [Misfit(Line(at, WrongForm(n)))] else ItemProblems(kind, n.items, at, |n.items|)
  }

  function ItemProblems(kind: Kind, items: seq<Node>, at: seq<Step>, n: nat): seq<Problem>
    requires (kind.Leaves? || kind.Objects?) && n <= |items|
    decreases kind, 0, n
  {
    if n == 0 then []
    else ItemProblems(kind, items, at, n - 1) + OneItemProblems(kind, items[n - 1], at + [Index(n - 1)])
  }

  function OneItemProblems(kind: Kind, n: Node, at: seq<Step>): seq<Problem>
    requires kind.Leaves? || kind.Objects?
    decreases kind, 0, 0
  {
    match kind
    case Leaves(form, options, _) => Reported(ScalarLines(form, options, n, at))
    case Objects(element) => if !n.Obj? then [Misfit(Line(at, WrongForm(n)))] else Problems(element, n, at)
  }

  function Strangers(shape: Shape, entries: seq<Pair>, before: seq<Step>, n: nat): seq<Problem>
    requires n <= |entries|
  {
    if n == 0 then []
    else
      Strangers(shape, entries, before, n - 1)
      + (if Declared(shape.decls, entries[n - 1].key).None? then [Unknown(before + [Key(entries[n - 1].key)])] else [])
  }

  // ----- The loops -----

  /** Walks the entries, then the document's own keys. An exception leaves the values as they are by then,
      and the list of problems with nobody to read it. */
  method LoadFieldsInto(shape: Shape, vals: Values, doc: Node, before: seq<Step>, soFar: seq<Problem>)
    returns (r: Values, threw: bool, problems: seq<Problem>)
    requires Fits(shape, vals)
    ensures Fits(shape, r) && Filling(r, threw) == Fill(shape, vals, doc)
    ensures !threw ==> problems == soFar + Problems(shape, doc, before)
    decreases shape, 2
  {
    hide FillCell, CellProblems, Lookup, FillUpTo, FieldProblems, Strangers;
    r, threw, problems := vals, false, soFar;
    NothingYet(shape, vals, doc, before);
    assert soFar + [] == soFar;
    for i := 0 to |shape.decls|
      invariant Fits(shape, r) && !threw && Filling(r, false) == FillUpTo(shape, vals, doc, i)
      invariant problems == soFar + FieldProblems(shape, doc, before, i)
    {
      var d := shape.decls[i];
      var cell, refused, more := LoadField(d.kind, r.cells[i], Find(doc, d.name), before + [Key(d.name)]);
      FillNext(shape, vals, doc, i, r, CellFilling(cell, refused));
      ProblemsNext(shape, doc, before, i);
      r := Values(r.cells[i := cell]);
      if refused {
        FillStays(shape, vals, doc, i + 1, |shape.decls|);
        threw := true;
        return;
      }
      assert problems + more == soFar + (FieldProblems(shape, doc, before, i) + more);
      problems := problems + more;
    }
    var strangers := LoadStrangers(shape, Entries(doc), before);
    assert problems + strangers == soFar + (FieldProblems(shape, doc, before, |shape.decls|) + strangers);
    problems := problems + strangers;
  }

  method LoadStrangers(shape: Shape, entries: seq<Pair>, before: seq<Step>) returns (problems: seq<Problem>)
    ensures problems == Strangers(shape, entries, before, |entries|)
  {
    problems := [];
    for i := 0 to |entries|
      invariant problems == Strangers(shape, entries, before, i)
    {
      if Declared(shape.decls, entries[i].key).None? {
        problems := problems + [Unknown(before + [Key(entries[i].key)])];
      }
    }
  }

  method LoadField(kind: Kind, cell: Cell, found: Option<Node>, at: seq<Step>)
    returns (r: Cell, threw: bool, problems: seq<Problem>)
    requires FitsCell(kind, cell)
    ensures FitsCell(kind, r) && CellFilling(r, threw) == FillCell(kind, cell, found)
    ensures !threw ==> problems == CellProblems(kind, found, at)
    decreases kind, 2
  {
    r, threw, problems := cell, false, [];
    if found.None? || found.value.Null? {
      if kind.Leaf? && kind.fallback.None? {
        problems := [Missing(at)];
      }
      return;
    }
    var n := found.value;
    if if kind.Leaf? then Read(kind.form, n).None? else if kind.Group? then !n.Obj? else !n.Arr? {
      problems := [Misfit(Line(at, WrongForm(n)))];
      return;
    }
    match kind
    case Leaf(form, _, options) =>
      var v := Read(form, n).value;
      if Allows(options, v) {
        r := LeafCell(v, true);
      } else if form == Text {
        problems := [Misfit(Line(at, NotListed(n)))];
      } else {
        threw := true;
      }
    case Group(inner) =>
      var values;
      values, threw, problems := LoadFieldsInto(inner, cell.inner, n, at, []);
      r := GroupCell(values);
    case Leaves(_, _, _) => r, problems := LoadItems(kind, cell, n.items, at);
    case Objects(_) => r, threw, problems := LoadElements(kind, cell, n.items, at);
  }

  method LoadItems(kind: Kind, cell: Cell, given: seq<Node>, at: seq<Step>) returns (r: Cell, problems: seq<Problem>)
    requires kind.Leaves? && cell.LeavesCell?
    ensures CellFilling(r, false) == FillCell(kind, cell, Some(Arr(given)))
    ensures problems == ItemProblems(kind, given, at, |given|)
  {
    var items := ResizedItems(kind.form, kind.zero, cell.items, |given|);
    ghost var held := items;
    problems := [];
    for i := 0 to |given|
      invariant |items| == |given| && problems == ItemProblems(kind, given, at, i)
      invariant forall j | 0 <= j < |given| ::
                  items[j] == if j < i then LoadItem(kind.form, kind.options, held[j], given[j]) else held[j]
    {
      var v := Read(kind.form, given[i]);
      if v.Some? && (kind.form == Text ==> Allows(kind.options, v.value)) {
        items := items[i := v.value];
      }
      problems := problems + Reported(ScalarLines(kind.form, kind.options, given[i], at + [Index(i)]));
    }
    r := LeavesCell(items, true);
    assert items == FillItems(kind.form, kind.options, held, given);
  }

  method LoadElements(kind: Kind, cell: Cell, given: seq<Node>, at: seq<Step>)
    returns (r: Cell, threw: bool, problems: seq<Problem>)
    requires kind.Objects? && FitsCell(kind, cell)
    ensures FitsCell(kind, r) && CellFilling(r, threw) == FillCell(kind, cell, Some(Arr(given)))
    ensures !threw ==> problems == ItemProblems(kind, given, at, |given|)
    decreases kind, 1
  {
    hide Fill, Problems;
    var element := kind.element;
    var elements := Resized(element, cell.elements, |given|);
    ghost var held := elements;
    threw, problems := false, [];
    for i := 0 to |given|
      invariant |elements| == |given| && AllFit(element, elements) && !threw
      invariant ListFilling(elements, false) == FillElements(element, held, given, i)
      invariant problems == ItemProblems(kind, given, at, i)
    {
      if !given[i].Obj? {
        problems := problems + [Misfit(Line(at + [Index(i)], WrongForm(given[i])))];
        continue;
      }
      var values, refused, more := LoadFieldsInto(element, elements[i], given[i], at + [Index(i)], []);
      elements := elements[i := values];
      assert ListFilling(elements, refused) == FillElements(element, held, given, i + 1);
      if refused {
        ElementsStay(element, held, given, i + 1, |given|);
        return ObjectsCell(elements, true), true, [];
      }
      problems := problems + more;
    }
    r := ObjectsCell(elements, true);
  }

  lemma NothingYet(shape: Shape, vals: Values, doc: Node, before: seq<Step>)
    requires Fits(shape, vals)
    ensures FillUpTo(shape, vals, doc, 0) == Filling(vals, false) && FieldProblems(shape, doc, before, 0) == []
  {}

  lemma FillNext(shape: Shape, vals: Values, doc: Node, i: nat, r: Values, c: CellFilling)
    requires Fits(shape, vals) && i < |shape.decls|
    requires Fits(shape, r) && FillUpTo(shape, vals, doc, i) == Filling(r, false)
    requires c == FillCell(shape.decls[i].kind, r.cells[i], Find(doc, shape.decls[i].name))
    ensures FillUpTo(shape, vals, doc, i + 1) == Filling(Values(r.cells[i := c.cell]), c.threw)
  {
    hide FillCell, Lookup;
  }

  lemma ProblemsNext(shape: Shape, doc: Node, before: seq<Step>, i: nat)
    requires i < |shape.decls|
    ensures var d := shape.decls[i];
            FieldProblems(shape, doc, before, i + 1) ==
            FieldProblems(shape, doc, before, i) + CellProblems(d.kind, Find(doc, d.name), before + [Key(d.name)])
  {
    hide CellProblems, Lookup;
  }

  /** Nothing happens after an exception. */
  lemma {:induction false} FillStays(shape: Shape, vals: Values, doc: Node, i: nat, n: nat)
    requires Fits(shape, vals) && i <= n <= |shape.decls| && FillUpTo(shape, vals, doc, i).threw
    ensures FillUpTo(shape, vals, doc, n) == FillUpTo(shape, vals, doc, i)
    decreases n
  {
    hide FillCell;
    if i < n {
      FillStays(shape, vals, doc, i, n - 1);
    }
  }

  lemma {:induction false} ElementsStay(element: Shape, held: seq<Values>, items: seq<Node>, i: nat, n: nat)
    requires |held| == |items| && i <= n <= |items| && AllFit(element, held)
    requires FillElements(element, held, items, i).threw
    ensures FillElements(element, held, items, n) == FillElements(element, held, items, i)
    decreases n
  {
    hide Fill;
    if i < n {
      ElementsStay(element, held, items, i, n - 1);
    }
  }
}
