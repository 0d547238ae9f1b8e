/** Descriptors of script modules: nested tables of config fields flattened into vectors that point at
    one another, and the storage those vectors live in. Pointers are positions; a deque element never
    moves, so a position is good for as long as the element is there. */
module Descriptors {
  import opened Common

  datatype FieldKind = Boolean | Integer | Real | Text | Object | Array

  /** A kind outside the list reads as text. */
  function KindOf(code: int): FieldKind {
    if code == 0 then Boolean
    else if code == 1 then Integer
    else if code == 2 then Real
    else if code == 4 then Object
    else if code == 5 then Array
    else Text
  }

  /** The numbers are those of the C boundary, in order from zero. */
  lemma KindsNumbered(code: int)
    ensures KindOf(code) == if 0 <= code < 6 then [Boolean, Integer, Real, Text, Object, Array][code] else Text
  {}

  /** One row of a declared table, as the script gave it. */
  datatype Row = Row(
    name: string,
    kind: int,
    fallback: Option<string>,
    options: seq<string>,
    element: Option<int>,
    fields: seq<Row>)

  /** What a reader of the descriptors sees of a row. */
  datatype Plain = Plain(
    name: string,
    kind: FieldKind,
    fallback: Option<string>,
    options: seq<string>,
    element: FieldKind,
    fields: seq<Plain>)

  function ElementOf(row: Row): FieldKind {
    if row.element.Some? then KindOf(row.element.value) else Text
  }

  function Normalised(rows: seq<Row>): (r: seq<Plain>)
    ensures |r| == |rows|
  {
    seq(|rows|, i requires 0 <= i < |rows| => NormalisedRow(rows[i]))
  }

  function NormalisedRow(row: Row): Plain {
    Plain(row.name, KindOf(row.kind), row.fallback, row.options, ElementOf(row), Normalised(row.fields))
  }

  // ----- The arena -----

  /** A field descriptor: texts, option lists and nested fields by position. */
  datatype Desc = Desc(
    name: nat,
    kind: FieldKind,
    fallback: Option<nat>,
    options: Option<nat>,
    optionCount: nat,
    element: FieldKind,
    fields: Option<nat>,
    fieldCount: nat)

  datatype Arena = Arena(texts: seq<string>, options: seq<seq<nat>>, fields: seq<seq<Desc>>)

  function TextAt(a: Arena, p: nat): string {
    if p < |a.texts| then a.texts[p] else ""
  }

  function OptionsAt(a: Arena, p: Option<nat>): seq<string> {
    if p.Some? && p.value < |a.options|
    then seq(|a.options[p.value]|, i requires 0 <= i < |a.options[p.value]| => TextAt(a, a.options[p.value][i]))
    else []
  }

  /** Reads the table a pointer stands for back out of the arena. A nested pointer is followed only to a
      later vector, which is the only place one is ever made to point. */
  function Decode(a: Arena, at: Option<nat>): seq<Plain>
    decreases if at.Some? && at.value < |a.fields| then |a.fields| - at.value else 0
  {
    if at.None? || at.value >= |a.fields| then []
    else seq(|a.fields[at.value]|, i requires 0 <= i < |a.fields[at.value]| =>
           var d := a.fields[at.value][i];
           Plain(TextAt(a, d.name), d.kind,
                 if d.fallback.Some? then Some(TextAt(a, d.fallback.value)) else None,
                 OptionsAt(a, d.options), d.element,
                 if d.fields.Some? && at.value < d.fields.value then Decode(a, d.fields) else []))
  }

  /** The pointer and its count stand for exactly these rows. */
  ghost predicate Encodes(a: Arena, at: Option<nat>, count: nat, rows: seq<Row>)
    decreases rows
  {
    && count == |rows|
    && (at.None? <==> rows == [])
    && (at.Some? ==>
          && at.value < |a.fields| && |a.fields[at.value]| == |rows|
          && forall i | 0 <= i < |rows| :: EncodesRow(a, at.value, a.fields[at.value][i], rows[i]))
  }

  ghost predicate EncodesRow(a: Arena, owner: nat, d: Desc, row: Row)
    decreases row
  {
    && d.name < |a.texts| && a.texts[d.name] == row.name
    && d.kind == KindOf(row.kind)
    && d.element == (if row.element.None? then Text else KindOf(row.element.value))
    && (d.fallback.Some? <==> row.fallback.Some?)
    && (d.fallback.Some? ==> d.fallback.value < |a.texts| && a.texts[d.fallback.value] == row.fallback.value)
    && d.optionCount == |row.options| && (d.options.None? <==> row.options == [])
    && (d.options.Some? ==> d.options.value < |a.options| && Lists(a, a.options[d.options.value], row.options))
    && Encodes(a, d.fields, d.fieldCount, row.fields)
    && (d.fields.Some? ==> owner < d.fields.value)
  }

  ghost predicate Lists(a: Arena, pointers: seq<nat>, options: seq<string>) {
    && |pointers| == |options|
    && forall i | 0 <= i < |options| :: pointers[i] < |a.texts| && a.texts[pointers[i]] == options[i]
  }

  /** What encodes a table decodes to it. */
  lemma {:induction false} EncodesDecodes(a: Arena, at: Option<nat>, count: nat, rows: seq<Row>)
    requires Encodes(a, at, count, rows)
    ensures Decode(a, at) == Normalised(rows)
    decreases rows
  {
    if at.Some? {
      forall i | 0 <= i < |rows| ensures Decode(a, at)[i] == NormalisedRow(rows[i]) {
        var d, row := a.fields[at.value][i], rows[i];
        assert EncodesRow(a, at.value, d, row);
        EncodesDecodes(a, d.fields, d.fieldCount, row.fields);
        assert OptionsAt(a, d.options) == row.options;
        assert d.fields.None? ==> Normalised(row.fields) == [];
      }
    }
  }

  /** Nothing at or after position `from` was touched, and texts and option lists only grew. */
  ghost predicate Kept(a: Arena, b: Arena, from: nat) {
    && a.texts <= b.texts && a.options <= b.options && |a.fields| <= |b.fields|
    && forall k | from <= k < |a.fields| :: b.fields[k] == a.fields[k]
  }

  lemma {:induction false} EncodesKept(a: Arena, b: Arena, from: nat, at: Option<nat>, count: nat, rows: seq<Row>)
    requires Encodes(a, at, count, rows) && Kept(a, b, from) && (at.Some? ==> from <= at.value)
    ensures Encodes(b, at, count, rows)
    decreases rows
  {
    if at.Some? {
      forall i | 0 <= i < |rows| ensures EncodesRow(b, at.value, b.fields[at.value][i], rows[i]) {
        EncodesRowKept(a, b, from, at.value, a.fields[at.value][i], rows[i]);
      }
    }
  }

  lemma {:induction false} EncodesRowKept(a: Arena, b: Arena, from: nat, owner: nat, d: Desc, row: Row)
    requires EncodesRow(a, owner, d, row) && Kept(a, b, from) && from <= owner + 1
    ensures EncodesRow(b, owner, d, row)
    decreases row
  {
    EncodesKept(a, b, from, d.fields, d.fieldCount, row.fields);
    if d.options.Some? {
      ListsKept(a, b, a.options[d.options.value], row.options);
    }
  }

  lemma ListsKept(a: Arena, b: Arena, pointers: seq<nat>, options: seq<string>)
    requires Lists(a, pointers, options) && a.texts <= b.texts
    ensures Lists(b, pointers, options)
  {}

  // ----- One module's storage -----

  class ModuleSlot {
    var texts: seq<string>
    var options: seq<seq<nat>>
    var fields: seq<seq<Desc>>

    ghost function State(): Arena
      reads this
    {
      Arena(texts, options, fields)
    }

    constructor ()
      ensures State() == Arena([], [], [])
    {
      texts, options, fields := [], [], [];
    }

    method Keep(text: string) returns (p: nat)
      modifies this`texts
      ensures texts == old(texts) + [text] && p == |old(texts)|
    {
      p := |texts|;
      texts := texts + [text];
    }

    /** A row's options: a vector of pointers is made whether there are any or not. */
    method KeepOptions(given: seq<string>) returns (p: Option<nat>)
      modifies this`texts, this`options
      ensures old(texts) <= texts && |options| == |old(options)| + 1 && options[..|old(options)|] == old(options)
      ensures Lists(State(), options[|old(options)|], given)
      ensures p == if given == [] then None else Some(|old(options)|)
    {
      var pointers: seq<nat> := [];
      ghost var was := texts;
      for o := 0 to |given|
        invariant was <= texts && |pointers| == o && options == old(options)
        invariant forall i | 0 <= i < o :: pointers[i] < |texts| && texts[pointers[i]] == given[i]
      {
        var text := Keep(given[o]);
        pointers := pointers + [text];
      }
      options := options + [pointers];
      p := if |pointers| == 0 then None else Some(|options| - 1);
    }

    /** Flattens a table: its own vector comes first, the nested ones after it. What was finished before
        the call - a half-filled vector of the caller included - is left as it was. */
    method ReadConfigFields(rows: seq<Row>) returns (at: Option<nat>)
      modifies this
      ensures Kept(old(State()), State(), 0)
      ensures at == if rows == [] then None else Some(|old(fields)|)
      ensures Encodes(State(), at, |rows|, rows)
      decreases rows
    {
      if |rows| == 0 {
        return None;
      }
      ghost var before := State();
      var own := |fields|;
      fields := fields + [[]];
      for i := 0 to |rows|
        invariant Kept(before, State(), 0)
        invariant own == |before.fields| < |fields| && |fields[own]| == i
        invariant forall j | 0 <= j < i :: EncodesRow(State(), own, fields[own][j], rows[j])
      {
        ghost var start := State();
        var desc := ReadRow(own, rows[i]);
        ghost var read := State();
        fields := fields[own := fields[own] + [desc]];
        assert Kept(read, State(), own + 1);
        EncodesRowKept(read, State(), own + 1, own, desc, rows[i]);
        forall j | 0 <= j < i ensures EncodesRow(State(), own, fields[own][j], rows[j]) {
          EncodesRowKept(start, read, 0, own, start.fields[own][j], rows[j]);
          EncodesRowKept(read, State(), own + 1, own, start.fields[own][j], rows[j]);
        }
      }
      at := Some(own);
    }

    method ReadRow(ghost own: nat, row: Row) returns (desc: Desc)
      requires own < |fields|
      modifies this
      ensures Kept(old(State()), State(), 0)
      ensures EncodesRow(State(), own, desc, row)
      decreases row
    {
      var name := Keep(row.name);
      var fallback := None;
      if row.fallback.Some? {
        var text := Keep(row.fallback.value);
        fallback := Some(text);
      }
      var pointers := KeepOptions(row.options);
      ghost var mid := State();
      var nested := ReadConfigFields(row.fields);
      if pointers.Some? {
        ListsKept(mid, State(), mid.options[pointers.value], row.options);
      }
      desc := Desc(name, KindOf(row.kind), fallback, pointers, |row.options|, ElementOf(row), nested, |row.fields|);
    }
  }

  // ----- The library's storage -----

  /** A module as its script describes it; ports by the codes of their kinds. */
  datatype ModuleRow = ModuleRow(name: string, version: seq<int>, ports: seq<int>, config: seq<Row>)

  /** The descriptor handed to the host; user data is the slot. */
  datatype ModuleDesc = ModuleDesc(slot: ModuleSlot, name: string, version: seq<nat>, fields: Option<nat>,
    fieldCount: nat)

  /** The port kinds the boundary knows. */
  predicate KnownKind(code: int) {
    1 <= code <= 6
  }

  predicate Acceptable(m: ModuleRow) {
    forall i | 0 <= i < |m.ports| :: KnownKind(m.ports[i])
  }

  function Accepted(ms: seq<ModuleRow>): seq<ModuleRow> {
    if ms == [] then []
    else Accepted(ms[..|ms| - 1]) + (if Acceptable(ms[|ms| - 1]) then [ms[|ms| - 1]] else [])
  }

  /** A module passes exactly when the boundary knows all its port kinds. */
  lemma AcceptedAlone(m: ModuleRow)
    ensures Accepted([m]) == if forall i | 0 <= i < |m.ports| :: 1 <= m.ports[i] <= 6 then [m] else []
  {
    assert [m][..0] == [] && Accepted([]) == [];
    assert Acceptable(m) <==> forall i | 0 <= i < |m.ports| :: 1 <= m.ports[i] <= 6;
  }

  /** Those that pass stay in the order given, each as often as it was given. */
  lemma {:induction false} AcceptedInOrder(ms: seq<ModuleRow>, more: seq<ModuleRow>)
    ensures Accepted(ms + more) == Accepted(ms) + Accepted(more)
  {
    hide Acceptable;
    if more == [] {
      assert ms + more == ms;
    } else {
      var n := |more| - 1;
      AcceptedInOrder(ms, more[..n]);
      assert (ms + more)[..|ms + more| - 1] == ms + more[..n];
    }
  }

  /** At most four components, each cut to 32 bits. */
  function VersionOf(m: ModuleRow): seq<nat> {
    var used := if |m.version| > 4 then 4 else |m.version|;
    seq(used, i requires 0 <= i < used => (m.version[i] % 0x1_0000_0000) as nat)
  }

  /** What is left of a version: its first four components, or all of fewer, each the same modulo 32 bits. */
  lemma VersionCut(m: ModuleRow)
    ensures var v := VersionOf(m);
            && |v| <= |m.version| && (|v| == |m.version| <= 4 || |v| == 4)
            && forall i | 0 <= i < |v| :: v[i] < 4294967296 && (m.version[i] - v[i]) % 4294967296 == 0
  {}

  ghost predicate Describes(d: ModuleDesc, m: ModuleRow)
    reads d.slot
  {
    && d.name == m.name && d.version == VersionOf(m)
    && Encodes(d.slot.State(), d.fields, d.fieldCount, m.config)
  }

  class Library {
    var storage: seq<ModuleSlot>
    var batches: seq<seq<ModuleDesc>>

    /** Every descriptor ever handed out points at a slot that is still there. */
    ghost predicate Valid()
      reads this
    {
      forall b, k | 0 <= b < |batches| && 0 <= k < |batches[b]| :: batches[b][k].slot in storage
    }

    constructor ()
      ensures Valid() && storage == [] && batches == []
    {
      storage, batches := [], [];
    }

    /** Describes one module at the end of the latest batch. A module with an unknown port kind is
        skipped, and the slot made for it is popped: nothing points at it yet. */
    method BuildOne(m: ModuleRow) returns (built: Option<ModuleDesc>)
      requires Valid() && batches != []
      modifies this
      ensures Valid() && |batches| == |old(batches)|
      ensures built.Some? <==> Acceptable(m)
      ensures built.Some? <==> forall i | 0 <= i < |m.ports| :: 1 <= m.ports[i] <= 6
      ensures built.None? ==> storage == old(storage) && batches == old(batches)
      ensures built.Some? ==>
                && fresh(built.value.slot) && storage == old(storage) + [built.value.slot]
                && batches == old(batches)[|old(batches)| - 1 := old(batches)[|old(batches)| - 1] + [built.value]]
                && Describes(built.value, m)
    {
      var slot := new ModuleSlot();
      storage := storage + [slot];
      var refused := ReadPorts(m.ports);
      if refused {
        storage := storage[..|storage| - 1];
        return None;
      }
      var fields := slot.ReadConfigFields(m.config);
      var desc := ModuleDesc(slot, m.name, VersionOf(m), fields, |m.config|);
      var last := |batches| - 1;
      batches := batches[last := batches[last] + [desc]];
      built := Some(desc);
    }

    /** Reads every port whatever it finds; the first unknown kind is what is remembered. */
    static method ReadPorts(ports: seq<int>) returns (refused: bool)
      ensures refused <==> exists i :: 0 <= i < |ports| && (ports[i] <= 0 || ports[i] >= 7)
    {
      refused := false;
      for i := 0 to |ports|
        invariant refused <==> exists k :: 0 <= k < i && (ports[k] <= 0 || ports[k] >= 7)
      {
        if !KnownKind(ports[i]) {
          refused := true;
        }
      }
    }

    /** A scan: a new batch with a descriptor for each acceptable module, in order. No batch handed out
        before is written to, and no slot made before goes away or changes. */
    method Discover(ms: seq<ModuleRow>) returns (batch: seq<ModuleDesc>)
      requires Valid()
      modifies this
      ensures Valid()
      ensures batches == old(batches) + [batch]
      ensures |storage| == |old(storage)| + |batch| && storage[..|old(storage)|] == old(storage)
      ensures |batch| == |Accepted(ms)|
      ensures forall k | 0 <= k < |batch| ::
                && batch[k].slot == storage[|old(storage)| + k] && fresh(batch[k].slot)
                && Describes(batch[k], Accepted(ms)[k])
    {
      ghost var earlier := batches;
      ghost var kept := storage;
      batches := batches + [[]];
      batch := [];
      for i := 0 to |ms|
        invariant Valid() && batches == earlier + [batch]
        invariant |storage| == |kept| + |batch| && storage[..|kept|] == kept
        invariant |batch| == |Accepted(ms[..i])|
        invariant forall k | 0 <= k < |batch| ::
                    && batch[k].slot == storage[|kept| + k] && fresh(batch[k].slot)
                    && Describes(batch[k], Accepted(ms[..i])[k])
      {
        assert ms[..i + 1][..i] == ms[..i];
        var built := BuildOne(ms[i]);
        if built.Some? {
          batch := batch + [built.value];
        }
      }
      assert ms[..|ms|] == ms;
    }
  }

  /** Any number of scans, one after another: in the end every batch still describes the modules of its
      own scan, and every descriptor points at a slot of the storage. */
  method Scan(library: Library, scans: seq<seq<ModuleRow>>)
    requires library.Valid() && library.batches == []
    modifies library
    ensures library.Valid() && |library.batches| == |scans|
    ensures forall b | 0 <= b < |scans| ::
              && |library.batches[b]| == |Accepted(scans[b])|
              && forall k | 0 <= k < |library.batches[b]| :: Describes(library.batches[b][k], Accepted(scans[b])[k])
  {
    hide Describes, Accepted;
    for n := 0 to |scans|
      invariant library.Valid() && |library.batches| == n
      invariant forall b | 0 <= b < n ::
                  && |library.batches[b]| == |Accepted(scans[b])|
                  && forall k | 0 <= k < |library.batches[b]| :: Describes(library.batches[b][k], Accepted(scans[b])[k])
    {
      var batch := library.Discover(scans[n]);
    }
  }

  /** What a reader follows from a handed-out descriptor is the module's own table. */
  lemma DescribedDecodes(d: ModuleDesc, m: ModuleRow)
    requires Describes(d, m)
    ensures Decode(d.slot.State(), d.fields) == Normalised(m.config)
  {
    EncodesDecodes(d.slot.State(), d.fields, d.fieldCount, m.config);
  }
}
