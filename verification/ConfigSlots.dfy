/** Editing at the place a row's steps resolve to: writing a value there, and growing an array. */
module ConfigSlots {
  import opened Common
  import opened ConfigNode
  import opened ConfigShape
  import opened ConfigMisfits
  import opened ConfigRoundTrip
  import opened ConfigRows
  import opened ConfigEditor

  /** A field and what is behind it. */
  datatype Place = Place(kind: Kind, cell: Cell)

  // ----- The field at a place -----

  function CellAt(shape: Shape, vals: Values, hops: seq<Hop>): (p: Option<Place>)
    requires Fits(shape, vals)
    ensures p.Some? ==> FitsCell(p.value.kind, p.value.cell)
    decreases |hops|, 0
  {
    if hops == [] || !hops[0].Field? || hops[0].i >= |shape.decls| then None
    else CellIn(shape.decls[hops[0].i].kind, vals.cells[hops[0].i], hops[1..])
  }

  function CellIn(kind: Kind, cell: Cell, hops: seq<Hop>): (p: Option<Place>)
    requires FitsCell(kind, cell)
    ensures p.Some? ==> FitsCell(p.value.kind, p.value.cell)
    decreases |hops|, 1
  {
    if hops == [] then Some(Place(kind, cell)) else
    match kind
    case Group(inner) => CellAt(inner, cell.inner, hops)
    case Objects(element) =>
      if hops[0].Element? && hops[0].i < |cell.elements|
      then CellAt(element, cell.elements[hops[0].i], hops[1..]) else None
    case _ => None
  }

  /** The values with that one field replaced: what writing through the entry does. */
  function PutAt(shape: Shape, vals: Values, hops: seq<Hop>, new_: Cell): (r: Values)
    requires Fits(shape, vals) && CellAt(shape, vals, hops).Some?
    requires FitsCell(CellAt(shape, vals, hops).value.kind, new_)
    ensures Fits(shape, r)
    decreases |hops|, 0
  {
    var i := hops[0].i;
    Values(vals.cells[i := PutIn(shape.decls[i].kind, vals.cells[i], hops[1..], new_)])
  }

  function PutIn(kind: Kind, cell: Cell, hops: seq<Hop>, new_: Cell): (r: Cell)
    requires FitsCell(kind, cell) && CellIn(kind, cell, hops).Some?
    requires FitsCell(CellIn(kind, cell, hops).value.kind, new_)
    ensures FitsCell(kind, r)
    decreases |hops|, 1
  {
    if hops == [] then new_ else
    match kind
    case Group(inner) => GroupCell(PutAt(inner, cell.inner, hops, new_))
    case Objects(element) =>
      var i := hops[0].i;
      cell.(elements := cell.elements[i := PutAt(element, cell.elements[i], hops[1..], new_)])
  }

  // ----- The edits -----

  /** The text door of a field or of an element, given what its codec made of the text. */
  function Written(p: Place, element: Option<nat>, parsed: Option<Scalar>): (r: Option<Cell>)
    ensures r.Some? ==> FitsCell(p.kind, r.value)
  {
    if parsed.None? then None else
    var v := parsed.value;
    match p.kind
    case Leaf(form, _, options) =>
      if element.None? && FormOf(v) == form && Allows(options, v) then Some(LeafCell(v, true)) else None
    case Leaves(form, options, _) =>
      if p.cell.LeavesCell? && element.Some? && element.value < |p.cell.items|
         && FormOf(v) == form && Allows(options, v)
      then Some(LeavesCell(p.cell.items[element.value := v], true)) else None
    case _ => None
  }

  /** resize(size() + 1). */
  function Grown(p: Place): (r: Option<Cell>)
    requires FitsCell(p.kind, p.cell)
    ensures r.Some? ==> FitsCell(p.kind, r.value)
  {
    match p.kind
    case Leaves(form, _, zero) => Some(LeavesCell(p.cell.items + [FreshItem(form, zero)], true))
    case Objects(element) => Some(ObjectsCell(p.cell.elements + [Fresh(element)], true))
    case _ => None
  }

  /** The slot a row's steps resolve to. */
  function SlotAt(shape: Shape, vals: Values, steps: seq<Step>): Option<Slot>
    requires Fits(shape, vals)
  {
    SlotOf(Walk(InConfig(shape, vals, []), steps))
  }

  /** Writing a value through a row; none when the steps lead nowhere or the value is refused. */
  function WriteAt(shape: Shape, vals: Values, steps: seq<Step>, parsed: Option<Scalar>): (r: Option<Values>)
    requires Fits(shape, vals)
    ensures r.Some? ==> Fits(shape, r.value)
  {
    var slot := SlotAt(shape, vals, steps);
    if slot.None? then None
    else
      var place := CellAt(shape, vals, slot.value.hops);
      if place.None? then None
      else
        var new_ := Written(place.value, slot.value.element, parsed);
        if new_.None? then None else Some(PutAt(shape, vals, slot.value.hops, new_.value))
  }

  /** The "add" button of an array's row. */
  function GrowAt(shape: Shape, vals: Values, steps: seq<Step>): (r: Option<Values>)
    requires Fits(shape, vals)
    ensures r.Some? ==> Fits(shape, r.value)
  {
    var slot := SlotAt(shape, vals, steps);
    if slot.None? || slot.value.element.Some? then None
    else
      var place := CellAt(shape, vals, slot.value.hops);
      if place.None? then None
      else
        var new_ := Grown(place.value);
        if new_.None? then None else Some(PutAt(shape, vals, slot.value.hops, new_.value))
  }

  // ----- A slot is where the steps lead -----

  /** Where the walk stands is the field its hops name. */
  ghost predicate Names(c: Cursor, here: Option<Place>) {
    || c.InConfig? || c.Lost?
    || (c.OnField? && here == Some(Place(c.kind, c.cell)))
    || (c.OnElement? && here.Some? && here.value.kind.Leaves? && here.value.cell.LeavesCell?
        && c.i < |here.value.cell.items|)
  }

  lemma {:induction false} WalkNames(shape: Shape, vals: Values, before: seq<Hop>, steps: seq<Step>)
    requires Fits(shape, vals)
    ensures var c := Walk(InConfig(shape, vals, before), steps);
            c.InConfig? || c.Lost? || (before <= c.hops && Names(c, CellAt(shape, vals, c.hops[|before|..])))
    decreases |steps|, 0
  {
    if steps != [] {
      WalkLost(steps[1..]);
      var d := if steps[0].Key? then Declared(shape.decls, steps[0].key) else None;
      if d.Some? {
        var i := d.value;
        var c := Walk(InConfig(shape, vals, before), steps);
        WalkNamesIn(shape.decls[i].kind, vals.cells[i], before + [Field(i)], steps[1..]);
        if c.OnField? || c.OnElement? {
          assert c.hops[|before|] == (before + [Field(i)])[|before|];
          assert c.hops[|before|..][1..] == c.hops[|before + [Field(i)]|..];
        }
      }
    }
  }

  lemma {:induction false} WalkNamesIn(kind: Kind, cell: Cell, before: seq<Hop>, steps: seq<Step>)
    requires FitsCell(kind, cell)
    ensures var c := Walk(OnField(kind, cell, before), steps);
            c.InConfig? || c.Lost? || (before <= c.hops && Names(c, CellIn(kind, cell, c.hops[|before|..])))
    decreases |steps|, 1
  {
    var c := Walk(OnField(kind, cell, before), steps);
    if steps == [] {
      assert before[|before|..] == [];
    } else {
      WalkLost(steps[1..]);
      if kind.Group? && steps[0].Key? {
        WalkNames(kind.inner, cell.inner, before, steps);
        assert c.OnField? || c.OnElement? ==> c.hops[|before|..] != [];
      } else if kind.Leaves? && steps[0].Index? && steps[0].i < |cell.items| {
        ElementEnds(before, steps[0].i, steps[1..]);
        assert before[|before|..] == [];
      } else if kind.Objects? && steps[0].Index? && steps[0].i < |cell.elements| {
        var i := steps[0].i;
        WalkNames(kind.element, cell.elements[i], before + [Element(i)], steps[1..]);
        if c.OnField? || c.OnElement? {
          assert c.hops[|before|] == (before + [Element(i)])[|before|];
          assert c.hops[|before|..][1..] == c.hops[|before + [Element(i)]|..];
        }
      }
    }
  }

  lemma ElementEnds(hops: seq<Hop>, i: nat, steps: seq<Step>)
    ensures Walk(OnElement(hops, i), steps) == if steps == [] then OnElement(hops, i) else Lost
  {
    if steps != [] {
      WalkLost(steps[1..]);
    }
  }

  /** The slot of a row always names a field, and an element it has. */
  lemma SlotNames(shape: Shape, vals: Values, steps: seq<Step>)
    requires Fits(shape, vals) && SlotAt(shape, vals, steps).Some?
    ensures Names(Walk(InConfig(shape, vals, []), steps), CellAt(shape, vals, SlotAt(shape, vals, steps).value.hops))
  {
    hide Names, CellAt, Walk;
    WalkNames(shape, vals, [], steps);
    var c := Walk(InConfig(shape, vals, []), steps);
    assert c.hops[0..] == c.hops;
  }

  // ----- One field changes, and no other -----

  lemma {:induction false} PutHere(shape: Shape, vals: Values, hops: seq<Hop>, new_: Cell)
    requires Fits(shape, vals) && CellAt(shape, vals, hops).Some?
    requires FitsCell(CellAt(shape, vals, hops).value.kind, new_)
    ensures CellAt(shape, PutAt(shape, vals, hops, new_), hops) ==
            Some(Place(CellAt(shape, vals, hops).value.kind, new_))
    decreases |hops|, 0
  {
    var i := hops[0].i;
    PutHereIn(shape.decls[i].kind, vals.cells[i], hops[1..], new_);
  }

  lemma {:induction false} PutHereIn(kind: Kind, cell: Cell, hops: seq<Hop>, new_: Cell)
    requires FitsCell(kind, cell) && CellIn(kind, cell, hops).Some?
    requires FitsCell(CellIn(kind, cell, hops).value.kind, new_)
    ensures CellIn(kind, PutIn(kind, cell, hops, new_), hops) == Some(Place(CellIn(kind, cell, hops).value.kind, new_))
    decreases |hops|, 1
  {
    if hops != [] {
      if kind.Group? {
        PutHere(kind.inner, cell.inner, hops, new_);
      } else {
        PutHere(kind.element, cell.elements[hops[0].i], hops[1..], new_);
      }
    }
  }

  lemma {:induction false} PutElsewhere(shape: Shape, vals: Values, hops: seq<Hop>, new_: Cell, other: seq<Hop>)
    requires Fits(shape, vals) && CellAt(shape, vals, hops).Some?
    requires FitsCell(CellAt(shape, vals, hops).value.kind, new_)
    requires !(hops <= other) && !(other <= hops)
    ensures CellAt(shape, PutAt(shape, vals, hops, new_), other) == CellAt(shape, vals, other)
    decreases |hops|, 0
  {
    if other != [] && other[0] == hops[0] {
      var i := hops[0].i;
      PutElsewhereIn(shape.decls[i].kind, vals.cells[i], hops[1..], new_, other[1..]);
    }
  }

  lemma {:induction false} PutElsewhereIn(kind: Kind, cell: Cell, hops: seq<Hop>, new_: Cell, other: seq<Hop>)
    requires FitsCell(kind, cell) && CellIn(kind, cell, hops).Some?
    requires FitsCell(CellIn(kind, cell, hops).value.kind, new_)
    requires !(hops <= other) && !(other <= hops)
    ensures CellIn(kind, PutIn(kind, cell, hops, new_), other) == CellIn(kind, cell, other)
    decreases |hops|, 1
  {
    if kind.Group? {
      PutElsewhere(kind.inner, cell.inner, hops, new_, other);
    } else if other[0] == hops[0] {
      PutElsewhere(kind.element, cell.elements[hops[0].i], hops[1..], new_, other[1..]);
    }
  }

  /** A tidy field in its place leaves the config tidy, and unlisted elements are only those it brings. */
  lemma {:induction false} PutKeeps(shape: Shape, vals: Values, hops: seq<Hop>, new_: Cell)
    requires Fits(shape, vals) && CellAt(shape, vals, hops).Some?
    requires FitsCell(CellAt(shape, vals, hops).value.kind, new_)
    requires TidyCell(CellAt(shape, vals, hops).value.kind, new_)
    ensures Tidy(shape, vals) ==> Tidy(shape, PutAt(shape, vals, hops, new_))
    ensures ElementsListed(shape, vals) ==>
              (ElementsListed(shape, PutAt(shape, vals, hops, new_)) <==>
               ElementsListedIn(CellAt(shape, vals, hops).value.kind, new_))
    decreases |hops|, 0
  {
    hide TidyCell, ElementsListedIn;
    var i := hops[0].i;
    var now := PutAt(shape, vals, hops, new_);
    PutKeepsIn(shape.decls[i].kind, vals.cells[i], hops[1..], new_);
    if Tidy(shape, vals) {
      assert TidyCell(shape.decls[i].kind, vals.cells[i]);
    }
    if ElementsListed(shape, vals) {
      assert ElementsListedIn(shape.decls[i].kind, vals.cells[i]);
      if ElementsListed(shape, now) {
        assert ElementsListedIn(shape.decls[i].kind, now.cells[i]);
      }
    }
  }

  lemma {:induction false} PutKeepsIn(kind: Kind, cell: Cell, hops: seq<Hop>, new_: Cell)
    requires FitsCell(kind, cell) && CellIn(kind, cell, hops).Some?
    requires FitsCell(CellIn(kind, cell, hops).value.kind, new_)
    requires TidyCell(CellIn(kind, cell, hops).value.kind, new_)
    ensures !TidyCell(kind, cell) || TidyCell(kind, PutIn(kind, cell, hops, new_))
    ensures ElementsListedIn(kind, cell) ==>
              (ElementsListedIn(kind, PutIn(kind, cell, hops, new_)) <==>
               ElementsListedIn(CellIn(kind, cell, hops).value.kind, new_))
    decreases |hops|, 1
  {
    if hops != [] {
      if kind.Group? {
        PutKeeps(kind.inner, cell.inner, hops, new_);
      } else {
        var i := hops[0].i;
        PutKeeps(kind.element, cell.elements[i], hops[1..], new_);
        var now := PutIn(kind, cell, hops, new_);
        assert now.elements[i] == PutAt(kind.element, cell.elements[i], hops[1..], new_);
      }
    }
  }

  lemma {:induction false} CellAtKeeps(shape: Shape, vals: Values, hops: seq<Hop>)
    requires Fits(shape, vals) && CellAt(shape, vals, hops).Some?
    ensures var p := CellAt(shape, vals, hops).value;
            && (!Tidy(shape, vals) || TidyCell(p.kind, p.cell))
            && (!ElementsListed(shape, vals) || ElementsListedIn(p.kind, p.cell))
    decreases |hops|, 0
  {
    hide TidyCell, ElementsListedIn;
    var i := hops[0].i;
    CellInKeeps(shape.decls[i].kind, vals.cells[i], hops[1..]);
    assert Tidy(shape, vals) ==> TidyCell(shape.decls[i].kind, vals.cells[i]);
    assert ElementsListed(shape, vals) ==> ElementsListedIn(shape.decls[i].kind, vals.cells[i]);
  }

  lemma {:induction false} CellInKeeps(kind: Kind, cell: Cell, hops: seq<Hop>)
    requires FitsCell(kind, cell) && CellIn(kind, cell, hops).Some?
    ensures var p := CellIn(kind, cell, hops).value;
            && (!TidyCell(kind, cell) || TidyCell(p.kind, p.cell))
            && (!ElementsListedIn(kind, cell) || ElementsListedIn(p.kind, p.cell))
    decreases |hops|, 1
  {
    if hops != [] {
      if kind.Group? {
        CellAtKeeps(kind.inner, cell.inner, hops);
      } else {
        CellAtKeeps(kind.element, cell.elements[hops[0].i], hops[1..]);
      }
    }
  }

  // ----- What an edit through a row does -----

  /** What the field at a slot holds once `v` was written there. */
  ghost predicate Holding(was: Place, now: Place, element: Option<nat>, v: Scalar) {
    && now.kind == was.kind
    && (|| (element.None? && now.cell == LeafCell(v, true))
        || (element.Some? && was.cell.LeavesCell? && element.value < |was.cell.items|
            && now.cell == LeavesCell(was.cell.items[element.value := v], true)))
  }

  /** A write through a row changes the field, or the one element, its steps resolve to, to the value
      written, and no other field anywhere; the config stays tidy and every text element a listed one. */
  lemma WriteChangesOnly(shape: Shape, vals: Values, steps: seq<Step>, parsed: Option<Scalar>, other: seq<Hop>)
    requires Fits(shape, vals) && Tidy(shape, vals) && ElementsListed(shape, vals)
    requires WriteAt(shape, vals, steps, parsed).Some?
    ensures SlotAt(shape, vals, steps).Some? && parsed.Some?
    ensures var now, slot := WriteAt(shape, vals, steps, parsed).value, SlotAt(shape, vals, steps).value;
            && Tidy(shape, now) && ElementsListed(shape, now)
            && CellAt(shape, vals, slot.hops).Some? && CellAt(shape, now, slot.hops).Some?
            && Holding(CellAt(shape, vals, slot.hops).value, CellAt(shape, now, slot.hops).value,
                       slot.element, parsed.value)
            && (!(slot.hops <= other) && !(other <= slot.hops) ==>
                  CellAt(shape, now, other) == CellAt(shape, vals, other))
  {
    hide CellAt, PutAt, Tidy, ElementsListed, SlotAt;
    var slot := SlotAt(shape, vals, steps).value;
    var place := CellAt(shape, vals, slot.hops).value;
    var new_ := Written(place, slot.element, parsed).value;
    CellAtKeeps(shape, vals, slot.hops);
    assert TidyCell(place.kind, new_) && ElementsListedIn(place.kind, new_);
    PutKeeps(shape, vals, slot.hops, new_);
    PutHere(shape, vals, slot.hops, new_);
    if !(slot.hops <= other) && !(other <= slot.hops) {
      PutElsewhere(shape, vals, slot.hops, new_, other);
    }
  }

  /** A row takes exactly the values of its form that its declared set allows. */
  lemma WriteTaken(shape: Shape, vals: Values, steps: seq<Step>, v: Scalar)
    requires Fits(shape, vals) && SlotAt(shape, vals, steps).Some?
    ensures var slot := SlotAt(shape, vals, steps).value;
            && CellAt(shape, vals, slot.hops).Some?
            && var kind := CellAt(shape, vals, slot.hops).value.kind;
               WriteAt(shape, vals, steps, Some(v)).Some? <==>
               && (if slot.element.Some? then kind.Leaves? else kind.Leaf?)
               && FormOf(v) == kind.form && (kind.options == [] || v in kind.options)
  {
    hide CellAt, PutAt, Walk;
    SlotNames(shape, vals, steps);
  }

  // ----- The "add" button -----

  /** A fresh element of such an array is one its declaration lists. */
  predicate FreshElementListed(kind: Kind) {
    kind.Leaves? && kind.form == Text ==> kind.options == [] || S(kind.zero) in kind.options
  }

  /** The array after the click: the elements it had, in their places, and a fresh one behind them; sized on
      purpose. */
  ghost predicate OneMore(kind: Kind, was: Cell, now: Cell)
    requires FitsCell(kind, was) && FitsCell(kind, now)
  {
    match kind
    case Leaves(form, _, zero) =>
      && now.written && |now.items| == |was.items| + 1 && was.items == now.items[..|was.items|]
      && now.items[|was.items|] ==
         (match form case Boolean => B(false) case Integer => I(0) case Decimal => R(0.0) case Text => S(zero))
    case Objects(element) =>
      && now.written && |now.elements| == |was.elements| + 1 && was.elements == now.elements[..|was.elements|]
      && now.elements[|was.elements|] == Fresh(element)
    case _ => false
  }

  /** The button works on the rows of arrays, and on no others. */
  lemma GrowTaken(shape: Shape, vals: Values, steps: seq<Step>)
    requires Fits(shape, vals) && SlotAt(shape, vals, steps).Some?
    ensures var slot := SlotAt(shape, vals, steps).value;
            && CellAt(shape, vals, slot.hops).Some?
            && var kind := CellAt(shape, vals, slot.hops).value.kind;
               GrowAt(shape, vals, steps).Some? <==> slot.element.None? && (kind.Leaves? || kind.Objects?)
  {
    hide CellAt, PutAt, Walk;
    SlotNames(shape, vals, steps);
  }

  lemma GrowChangesOnly(shape: Shape, vals: Values, steps: seq<Step>, other: seq<Hop>)
    requires Fits(shape, vals) && Tidy(shape, vals) && ElementsListed(shape, vals)
    requires GrowAt(shape, vals, steps).Some?
    ensures SlotAt(shape, vals, steps).Some?
    ensures var now, hops := GrowAt(shape, vals, steps).value, SlotAt(shape, vals, steps).value.hops;
            && Tidy(shape, now)
            && CellAt(shape, vals, hops).Some?
            && (ElementsListed(shape, now) <==> FreshElementListed(CellAt(shape, vals, hops).value.kind))
            && CellAt(shape, now, hops).Some?
            && CellAt(shape, now, hops).value.kind == CellAt(shape, vals, hops).value.kind
            && OneMore(CellAt(shape, vals, hops).value.kind, CellAt(shape, vals, hops).value.cell,
                       CellAt(shape, now, hops).value.cell)
            && (!(hops <= other) && !(other <= hops) ==> CellAt(shape, now, other) == CellAt(shape, vals, other))
  {
    hide CellAt, PutAt, Tidy, ElementsListed, SlotAt;
    var slot := SlotAt(shape, vals, steps).value;
    var place := CellAt(shape, vals, slot.hops).value;
    var new_ := Grown(place).value;
    CellAtKeeps(shape, vals, slot.hops);
    GrownKeeps(place);
    PutKeeps(shape, vals, slot.hops, new_);
    PutHere(shape, vals, slot.hops, new_);
    if !(slot.hops <= other) && !(other <= slot.hops) {
      PutElsewhere(shape, vals, slot.hops, new_, other);
    }
  }

  lemma GrownKeeps(p: Place)
    requires FitsCell(p.kind, p.cell) && TidyCell(p.kind, p.cell) && ElementsListedIn(p.kind, p.cell) && Grown(p).Some?
    ensures TidyCell(p.kind, Grown(p).value)
    ensures ElementsListedIn(p.kind, Grown(p).value) <==> FreshElementListed(p.kind)
  {
    var now := Grown(p).value;
    match p.kind
    case Leaves(form, _, zero) =>
      assert now.items[|p.cell.items|] == FreshItem(form, zero);
    case Objects(element) =>
      FreshTidy(element);
      FreshListed(element);
  }

  /** Whether the rows survive the "add" button can be told before the click: given a config whose
      document the editor accepts, it accepts the one with a fresh element exactly when the array is not
      one of texts or its declared set lists the text a fresh element has. */
  lemma GrownAdmitted(shape: Shape, vals: Values, stored: Node, steps: seq<Step>)
    requires Fits(shape, vals) && Tidy(shape, vals) && UniqueNames(shape) && UniqueKeys(stored)
    requires AllMisfits(shape, Document(shape, vals, stored)) == []
    requires GrowAt(shape, vals, steps).Some?
    ensures SlotAt(shape, vals, steps).Some? && CellAt(shape, vals, SlotAt(shape, vals, steps).value.hops).Some?
    ensures AllMisfits(shape, Document(shape, GrowAt(shape, vals, steps).value, stored)) == [] <==>
            FreshElementListed(CellAt(shape, vals, SlotAt(shape, vals, steps).value.hops).value.kind)
  {
    hide AllMisfits, CellAt, GrowAt, SlotAt, Tidy, ElementsListed;
    OwnDocumentAdmitted(shape, vals, stored);
    GrowChangesOnly(shape, vals, steps, []);
    OwnDocumentAdmitted(shape, GrowAt(shape, vals, steps).value, stored);
  }

  /** One such array and one click: a set of colours whose type has a zero outside it, which prints as the
      empty text. */
  lemma GrownDeclined() returns (shape: Shape, steps: seq<Step>)
    ensures UniqueNames(shape) && AllMisfits(shape, Document(shape, Fresh(shape), Null)) == []
    ensures var now := GrowAt(shape, Fresh(shape), steps);
            now.Some? && AllMisfits(shape, Document(shape, now.value, Null)) != []
  {
    var kind := Leaves(Text, [S("red"), S("green")], "");
    shape := Shape([Decl("colours", kind)]);
    steps := [Key("colours")];
    var vals := Fresh(shape);
    var start := InConfig(shape, vals, []);
    var here := OnField(kind, vals.cells[0], [Field(0)]);
    assert Advance(start, steps[0]) == here by {
      assert Declared(shape.decls, "colours") == Some(0);
      assert [] + [Field(0)] == [Field(0)];
    }
    assert Walk(start, steps) == here by {
      assert steps[1..] == [] && Walk(here, []) == here;
    }
    assert vals.cells[0] == FreshCell(kind) == LeavesCell([], false) by {
    }
    assert CellAt(shape, vals, [Field(0)]) == Some(Place(kind, LeavesCell([], false)));
    FreshTidy(shape);
    FreshListed(shape);
    OwnDocumentAdmitted(shape, vals, Null);
    GrownAdmitted(shape, vals, Null, steps);
  }
}
