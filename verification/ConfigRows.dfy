/** The rows drawn for a config, and the way from a row's steps back to the place it was drawn from. */
module ConfigRows {
  import opened Common
  import opened ConfigNode
  import opened ConfigShape
  import opened ConfigAddress

  /** A place among the values, without names: the position of a field, of an array element. */
  datatype Hop = Field(i: nat) | Element(i: nat)

  /** One editable place: a field and, for an array of scalars, possibly one of its elements. */
  datatype Slot = Slot(hops: seq<Hop>, element: Option<nat>)

  datatype Row = Row(steps: seq<Step>, slot: Slot)

  // ----- Drawing -----

  /** The rows that carry an editor: every scalar field, every array (for its "add" button) and every
      element of an array of scalars. */
  function Rows(shape: Shape, vals: Values, steps: seq<Step>, hops: seq<Hop>): seq<Row>
    requires Fits(shape, vals)
    decreases shape, |shape.decls| + 1
  {
    RowsUpTo(shape, vals, |shape.decls|, steps, hops)
  }

  function RowsUpTo(shape: Shape, vals: Values, n: nat, steps: seq<Step>, hops: seq<Hop>): seq<Row>
    requires Fits(shape, vals) && n <= |shape.decls|
    decreases shape, n
  {
    if n == 0 then []
    else
      var d := shape.decls[n - 1];
      RowsUpTo(shape, vals, n - 1, steps, hops)
      + FieldRows(d.kind, vals.cells[n - 1], steps + [Key(d.name)], hops + [Field(n - 1)])
  }

  function FieldRows(kind: Kind, cell: Cell, steps: seq<Step>, hops: seq<Hop>): seq<Row>
    requires FitsCell(kind, cell)
    decreases kind, 0
  {
    match kind
    case Leaf(_, _, _) => [Row(steps, Slot(hops, None))]
    case Group(inner) => Rows(inner, cell.inner, steps, hops)
    case Leaves(_, _, _) =>
      [Row(steps, Slot(hops, None))]
      + seq(|cell.items|, i requires 0 <= i < |cell.items| => Row(steps + [Index(i)], Slot(hops, Some(i))))
    case Objects(element) =>
      [Row(steps, Slot(hops, None))] + ElementRows(element, cell.elements, |cell.elements|, steps, hops)
  }

  function ElementRows(element: Shape, elements: seq<Values>, n: nat, steps: seq<Step>, hops: seq<Hop>): seq<Row>
    requires n <= |elements| && forall i | 0 <= i < |elements| :: Fits(element, elements[i])
    decreases element, |element.decls| + 2, n
  {
    if n == 0 then []
    else
      ElementRows(element, elements, n - 1, steps, hops)
      + Rows(element, elements[n - 1], steps + [Index(n - 1)], hops + [Element(n - 1)])
  }

  // ----- Resolving -----

  /** Where a walk along steps stands: inside a config, on a field of it, on an element of an array of
      scalars, or nowhere. */
  datatype Cursor =
    | InConfig(shape: Shape, vals: Values, hops: seq<Hop>)
    | OnField(kind: Kind, cell: Cell, hops: seq<Hop>)
    | OnElement(hops: seq<Hop>, i: nat)
    | Lost

  ghost predicate Sound(c: Cursor) {
    (c.InConfig? ==> Fits(c.shape, c.vals)) && (c.OnField? ==> FitsCell(c.kind, c.cell))
  }

  function FindField(shape: Shape, vals: Values, hops: seq<Hop>, name: string): (c: Cursor)
    requires Fits(shape, vals)
    ensures Sound(c)
  {
    var d := Declared(shape.decls, name);
    if d.None? then Lost else OnField(shape.decls[d.value].kind, vals.cells[d.value], hops + [Field(d.value)])
  }

  function Advance(c: Cursor, step: Step): (r: Cursor)
    requires Sound(c)
    ensures Sound(r)
  {
    match step
    case Index(i) =>
      if !c.OnField? then Lost
      else if c.kind.Objects? && i < |c.cell.elements|
      then InConfig(c.kind.element, c.cell.elements[i], c.hops + [Element(i)])
      else if c.kind.Leaves? && i < |c.cell.items| then OnElement(c.hops, i)
      else Lost
    case Key(name) =>
      if c.InConfig? then FindField(c.shape, c.vals, c.hops, name)
      else if c.OnField? && c.kind.Group? then FindField(c.kind.inner, c.cell.inner, c.hops, name)
      else Lost
  }

  function Walk(c: Cursor, steps: seq<Step>): (r: Cursor)
    requires Sound(c)
    ensures Sound(r)
    decreases |steps|
  {
    if steps == [] then c else Walk(Advance(c, steps[0]), steps[1..])
  }

  function SlotOf(c: Cursor): Option<Slot> {
    match c
    case OnField(_, _, hops) => Some(Slot(hops, None))
    case OnElement(hops, i) => Some(Slot(hops, Some(i)))
    case _ => None
  }

  /** The loop that follows a row's tokens down the config. */
  method Resolve(shape: Shape, vals: Values, tokens: seq<string>) returns (slot: Option<Slot>)
    requires Fits(shape, vals)
    ensures slot == SlotOf(Walk(InConfig(shape, vals, []), StepsOf(tokens)))
  {
    var steps := StepsOf(tokens);
    var here := InConfig(shape, vals, []);
    for k := 0 to |steps|
      invariant Sound(here)
      invariant Walk(here, steps[k..]) == Walk(InConfig(shape, vals, []), steps)
    {
      assert steps[k..][0] == steps[k] && steps[k..][1..] == steps[k + 1..];
      here := Advance(here, steps[k]);
      if here.Lost? {
        WalkLost(steps[k + 1..]);
        return None;
      }
    }
    slot := SlotOf(here);
  }

  lemma {:induction false} WalkLost(steps: seq<Step>)
    ensures Walk(Lost, steps) == Lost
    decreases |steps|
  {
    if steps != [] {
      WalkLost(steps[1..]);
    }
  }

  /** A walk ends with its last step. */
  lemma {:induction false} WalkLast(c: Cursor, steps: seq<Step>)
    requires Sound(c) && steps != []
    ensures Walk(c, steps) == Advance(Walk(c, steps[..|steps| - 1]), steps[|steps| - 1])
    decreases |steps|
  {
    if |steps| == 1 {
      assert steps[..0] == [] && steps[1..] == [];
    } else {
      WalkLast(Advance(c, steps[0]), steps[1..]);
      assert steps[1..][..|steps| - 2] == steps[..|steps| - 1][1..];
    }
  }

  // ----- Every row leads back -----

  /** From the cursor it was drawn at, the row's own steps lead to the row's slot. */
  ghost predicate LeadsBack(c: Cursor, base: nat, row: Row)
    requires Sound(c)
  {
    base <= |row.steps| && SlotOf(Walk(c, row.steps[base..])) == Some(row.slot)
  }

  lemma LeadsBackUp(c: Cursor, step: Step, base: nat, row: Row)
    requires Sound(c) && base < |row.steps| && row.steps[base] == step
    requires LeadsBack(Advance(c, step), base + 1, row)
    ensures LeadsBack(c, base, row)
  {
    assert row.steps[base..][0] == step && row.steps[base..][1..] == row.steps[base + 1..];
  }

  lemma {:induction false} RowsLeadBack(shape: Shape, vals: Values, n: nat, steps: seq<Step>, hops: seq<Hop>, k: nat)
    requires Fits(shape, vals) && UniqueNames(shape) && n <= |shape.decls|
    requires k < |RowsUpTo(shape, vals, n, steps, hops)|
    ensures var row := RowsUpTo(shape, vals, n, steps, hops)[k];
            && |steps| < |row.steps| && steps == row.steps[..|steps|]
            && row.steps[|steps|].Key?
            && LeadsBack(InConfig(shape, vals, hops), |steps|, row)
            && (forall kind, cell :: kind == Group(shape) && cell == GroupCell(vals) ==>
                  LeadsBack(OnField(kind, cell, hops), |steps|, row))
    decreases shape, n
  {
    var before := RowsUpTo(shape, vals, n - 1, steps, hops);
    if k < |before| {
      RowsLeadBack(shape, vals, n - 1, steps, hops, k);
      return;
    }
    var d := shape.decls[n - 1];
    var deeper := steps + [Key(d.name)];
    var here := InConfig(shape, vals, hops);
    var row := FieldRows(d.kind, vals.cells[n - 1], deeper, hops + [Field(n - 1)])[k - |before|];
    assert UniqueNamesIn(d.kind);
    FieldRowsLeadBack(d.kind, vals.cells[n - 1], deeper, hops + [Field(n - 1)], k - |before|);
    assert Declared(shape.decls, d.name) == Some(n - 1);
    assert row.steps[..|steps|] == deeper[..|steps|] == steps;
    assert row.steps[|steps|] == row.steps[..|deeper|][|steps|];
    LeadsBackUp(here, Key(d.name), |steps|, row);
    LeadsBackUp(OnField(Group(shape), GroupCell(vals), hops), Key(d.name), |steps|, row);
  }

  lemma {:induction false} FieldRowsLeadBack(kind: Kind, cell: Cell, steps: seq<Step>, hops: seq<Hop>, k: nat)
    requires FitsCell(kind, cell) && UniqueNamesIn(kind)
    requires k < |FieldRows(kind, cell, steps, hops)|
    ensures var row := FieldRows(kind, cell, steps, hops)[k];
            && |steps| <= |row.steps| && steps == row.steps[..|steps|]
            && LeadsBack(OnField(kind, cell, hops), |steps|, row)
    decreases kind, 0
  {
    var row := FieldRows(kind, cell, steps, hops)[k];
    var here := OnField(kind, cell, hops);
    match kind
    case Leaf(_, _, _) => assert row.steps[|steps|..] == [];
    case Group(inner) => RowsLeadBack(inner, cell.inner, |inner.decls|, steps, hops, k);
    case Leaves(_, _, _) =>
      if k == 0 {
        assert row.steps[|steps|..] == [];
      } else {
        assert row.steps[|steps| + 1..] == [];
        LeadsBackUp(here, Index(k - 1), |steps|, row);
      }
    case Objects(element) =>
      if k == 0 {
        assert row.steps[|steps|..] == [];
      } else {
        ElementRowsLeadBack(element, cell, |cell.elements|, steps, hops, k - 1);
      }
  }

  lemma {:induction false} ElementRowsLeadBack(element: Shape, cell: Cell, n: nat, steps: seq<Step>, hops: seq<Hop>,
      k: nat)
    requires FitsCell(Objects(element), cell) && UniqueNames(element) && n <= |cell.elements|
    requires k < |ElementRows(element, cell.elements, n, steps, hops)|
    ensures var row := ElementRows(element, cell.elements, n, steps, hops)[k];
            && |steps| < |row.steps| && steps == row.steps[..|steps|]
            && LeadsBack(OnField(Objects(element), cell, hops), |steps|, row)
    decreases element, |element.decls| + 2, n
  {
    var before := ElementRows(element, cell.elements, n - 1, steps, hops);
    if k < |before| {
      ElementRowsLeadBack(element, cell, n - 1, steps, hops, k);
      return;
    }
    var deeper := steps + [Index(n - 1)];
    var row := Rows(element, cell.elements[n - 1], deeper, hops + [Element(n - 1)])[k - |before|];
    RowsLeadBack(element, cell.elements[n - 1], |element.decls|, deeper, hops + [Element(n - 1)], k - |before|);
    assert row.steps[..|steps|] == deeper[..|steps|] == steps;
    assert row.steps[|steps|] == row.steps[..|deeper|][|steps|];
    LeadsBackUp(OnField(Objects(element), cell, hops), Index(n - 1), |steps|, row);
  }

  // ----- No two rows for one place -----

  /** No two rows have one slot, and every slot starts with `hops`. */
  ghost predicate Apart(rows: seq<Row>, hops: seq<Hop>) {
    forall j, k | 0 <= j <= k < |rows| :: hops <= rows[j].slot.hops && (j < k ==> rows[j].slot != rows[k].slot)
  }

  lemma {:induction false} RowsDistinct(shape: Shape, vals: Values, n: nat, steps: seq<Step>, hops: seq<Hop>)
    requires Fits(shape, vals) && n <= |shape.decls|
    ensures var rows := RowsUpTo(shape, vals, n, steps, hops);
            && Apart(rows, hops)
            && forall k | 0 <= k < |rows| ::
                 |rows[k].slot.hops| > |hops| && rows[k].slot.hops[|hops|].Field? && rows[k].slot.hops[|hops|].i < n
    decreases shape, n
  {
    if n > 0 {
      var d := shape.decls[n - 1];
      var mine := hops + [Field(n - 1)];
      var rows := FieldRows(d.kind, vals.cells[n - 1], steps + [Key(d.name)], mine);
      RowsDistinct(shape, vals, n - 1, steps, hops);
      FieldRowsDistinct(d.kind, vals.cells[n - 1], steps + [Key(d.name)], mine);
      forall k | 0 <= k < |rows|
        ensures hops <= rows[k].slot.hops && |rows[k].slot.hops| > |hops| && rows[k].slot.hops[|hops|] == Field(n - 1)
      {
        assert mine <= rows[k].slot.hops;
        assert rows[k].slot.hops[|hops|] == mine[|hops|];
      }
    }
  }

  lemma {:induction false} FieldRowsDistinct(kind: Kind, cell: Cell, steps: seq<Step>, hops: seq<Hop>)
    requires FitsCell(kind, cell)
    ensures Apart(FieldRows(kind, cell, steps, hops), hops)
    decreases kind, 0
  {
    match kind
    case Leaf(_, _, _) =>
    case Group(inner) => RowsDistinct(inner, cell.inner, |inner.decls|, steps, hops);
    case Leaves(_, _, _) =>
    case Objects(element) => ElementRowsDistinct(element, cell.elements, |cell.elements|, steps, hops);
  }

  lemma {:induction false} ElementRowsDistinct(element: Shape, elements: seq<Values>, n: nat, steps: seq<Step>,
      hops: seq<Hop>)
    requires n <= |elements| && forall i | 0 <= i < |elements| :: Fits(element, elements[i])
    ensures var rows := ElementRows(element, elements, n, steps, hops);
            && Apart(rows, hops)
            && forall k | 0 <= k < |rows| ::
                 |rows[k].slot.hops| > |hops| && rows[k].slot.hops[|hops|].Element? && rows[k].slot.hops[|hops|].i < n
    decreases element, |element.decls| + 2, n
  {
    if n > 0 {
      var mine := hops + [Element(n - 1)];
      var rows := Rows(element, elements[n - 1], steps + [Index(n - 1)], mine);
      ElementRowsDistinct(element, elements, n - 1, steps, hops);
      RowsDistinct(element, elements[n - 1], |element.decls|, steps + [Index(n - 1)], mine);
      forall k | 0 <= k < |rows|
        ensures hops <= rows[k].slot.hops && |rows[k].slot.hops| > |hops| && rows[k].slot.hops[|hops|] == Element(n - 1)
      {
        assert mine <= rows[k].slot.hops;
        assert rows[k].slot.hops[|hops|] == mine[|hops|];
      }
    }
  }

  /** For sibling names unique, whatever characters they hold: each row's tokens resolve to exactly the
      place it was drawn from, and no two rows share their tokens. */
  lemma RowsResolve(shape: Shape, vals: Values, j: nat, k: nat)
    requires Fits(shape, vals) && UniqueNames(shape)
    requires j < |Rows(shape, vals, [], [])| && k < |Rows(shape, vals, [], [])|
    requires Addressable(Rows(shape, vals, [], [])[j].steps) && Addressable(Rows(shape, vals, [], [])[k].steps)
    ensures var rows := Rows(shape, vals, [], []);
            && SlotOf(Walk(InConfig(shape, vals, []), StepsOf(Tokens(rows[k].steps)))) == Some(rows[k].slot)
            && (j != k ==> Tokens(rows[j].steps) != Tokens(rows[k].steps))
  {
    hide Walk, RowsUpTo;
    var rows := Rows(shape, vals, [], []);
    RowsLeadBack(shape, vals, |shape.decls|, [], [], j);
    RowsLeadBack(shape, vals, |shape.decls|, [], [], k);
    assert rows[j].steps[0..] == rows[j].steps && rows[k].steps[0..] == rows[k].steps;
    TokensRoundTrip(rows[j].steps);
    TokensRoundTrip(rows[k].steps);
    RowsDistinct(shape, vals, |shape.decls|, [], []);
  }

  // ----- No place without a row -----

  /** The walk ends at a place the editor draws an editor for: a scalar field, an array, or an element of
      an array of scalars. */
  predicate Drawn(c: Cursor) {
    c.OnElement? || (c.OnField? && !c.kind.Group?)
  }

  lemma {:induction false} FieldAmongRows(shape: Shape, vals: Values, n: nat, steps: seq<Step>, hops: seq<Hop>,
      d: nat, row: Row)
    requires Fits(shape, vals) && d < n <= |shape.decls|
    requires row in FieldRows(shape.decls[d].kind, vals.cells[d], steps + [Key(shape.decls[d].name)], hops + [Field(d)])
    ensures row in RowsUpTo(shape, vals, n, steps, hops)
    decreases n
  {
    hide FieldRows;
    if d < n - 1 {
      FieldAmongRows(shape, vals, n - 1, steps, hops, d, row);
    }
  }

  lemma {:induction false} ElementAmongRows(element: Shape, elements: seq<Values>, n: nat, steps: seq<Step>,
      hops: seq<Hop>, i: nat, row: Row)
    requires i < n <= |elements| && forall j | 0 <= j < |elements| :: Fits(element, elements[j])
    requires row in Rows(element, elements[i], steps + [Index(i)], hops + [Element(i)])
    ensures row in ElementRows(element, elements, n, steps, hops)
    decreases n
  {
    hide Rows;
    if i < n - 1 {
      ElementAmongRows(element, elements, n - 1, steps, hops, i, row);
    }
  }

  lemma {:induction false} RowsCover(shape: Shape, vals: Values, before: seq<Step>, hops: seq<Hop>, steps: seq<Step>)
    requires Fits(shape, vals) && Drawn(Walk(InConfig(shape, vals, hops), steps))
    ensures Row(before + steps, SlotOf(Walk(InConfig(shape, vals, hops), steps)).value)
            in Rows(shape, vals, before, hops)
    decreases |steps|, 0
  {
    hide FieldRows;
    WalkLost(steps[1..]);
    var d := Declared(shape.decls, steps[0].key).value;
    FieldRowsCover(shape.decls[d].kind, vals.cells[d], before + [steps[0]], hops + [Field(d)], steps[1..]);
    assert before + steps == before + [steps[0]] + steps[1..];
    FieldAmongRows(shape, vals, |shape.decls|, before, hops, d,
      Row(before + steps, SlotOf(Walk(InConfig(shape, vals, hops), steps)).value));
  }

  lemma {:induction false} FieldRowsCover(kind: Kind, cell: Cell, before: seq<Step>, hops: seq<Hop>, steps: seq<Step>)
    requires FitsCell(kind, cell) && Drawn(Walk(OnField(kind, cell, hops), steps))
    ensures Row(before + steps, SlotOf(Walk(OnField(kind, cell, hops), steps)).value)
            in FieldRows(kind, cell, before, hops)
    decreases |steps|, 1
  {
    hide Rows;
    var row := Row(before + steps, SlotOf(Walk(OnField(kind, cell, hops), steps)).value);
    if steps == [] {
      assert before + steps == before;
      assert row == FieldRows(kind, cell, before, hops)[0];
    } else {
      WalkLost(steps[1..]);
      if kind.Group? {
        RowsCover(kind.inner, cell.inner, before, hops, steps);
      } else if kind.Leaves? {
        assert steps == [steps[0]];
        assert row == FieldRows(kind, cell, before, hops)[1 + steps[0].i];
      } else {
        var i := steps[0].i;
        RowsCover(kind.element, cell.elements[i], before + [steps[0]], hops + [Element(i)], steps[1..]);
        assert before + steps == before + [steps[0]] + steps[1..];
        ElementAmongRows(kind.element, cell.elements, |cell.elements|, before, hops, i, row);
      }
    }
  }

  /** Whatever place the steps lead to that can be edited has its row, under those very steps. */
  lemma RowsComplete(shape: Shape, vals: Values, steps: seq<Step>)
    requires Fits(shape, vals)
    requires var c := Walk(InConfig(shape, vals, []), steps); c.OnElement? || (c.OnField? && !c.kind.Group?)
    ensures Row(steps, SlotOf(Walk(InConfig(shape, vals, []), steps)).value) in Rows(shape, vals, [], [])
  {
    RowsCover(shape, vals, [], [], steps);
    assert [] + steps == steps;
  }
}
