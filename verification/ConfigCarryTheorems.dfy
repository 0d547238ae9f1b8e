/** What carrying undeclared keys keeps, and what it leaves alone. */
module ConfigCarryTheorems {
  import opened Common
  import opened ConfigNode
  import opened ConfigShape
  import opened ConfigRoundTrip
  import opened ConfigCarry

  // ----- Running it twice -----

  /** Settling a key against what it was settled to gives the same again, or leaves it. */
  lemma {:induction false} SettledTwice(shape: Shape, pair: Pair, held: Option<Node>)
    requires UniqueKeys(pair.value)
    ensures var once := Settled(shape, pair, held);
            var now := if once.Some? then once else held;
            var twice := Settled(shape, pair, now);
            twice.Some? ==> twice == now
    decreases pair, 0
  {
    var d := Declared(shape.decls, pair.key);
    if d.None? { return; }
    match shape.decls[d.value].kind
    case Group(inner) =>
      CarryIdempotent(inner, pair.value, if held.Some? then held.value else EMPTY_OBJECT);
    case Objects(element) =>
      if held.Some? && held.value.Arr? && pair.value.Arr? {
        ItemsIdempotent(element, pair.value, held.value);
      }
    case _ =>
  }

  lemma {:induction false} ItemsIdempotent(element: Shape, from: Node, into: Node)
    requires from.Arr? && into.Arr? && UniqueKeys(from)
    ensures CarryItems(element, from, CarryItems(element, from, into)) == CarryItems(element, from, into)
    decreases from, 0
  {
    var once := CarryItems(element, from, into);
    forall i | 0 <= i < |into.items| && i < |from.items|
      ensures Carry(element, from.items[i], once.items[i]) == once.items[i]
    {
      CarryIdempotent(element, from.items[i], into.items[i]);
    }
    assert CarryItems(element, from, once).items == once.items;
  }

  lemma {:induction false} CarrySettled(shape: Shape, from: Node, done: Node, n: nat)
    requires from.Obj? && done.Obj? && n <= |from.entries|
    requires forall i | 0 <= i < n ::
               var s := Settled(shape, from.entries[i], Find(done, from.entries[i].key));
               s.Some? ==> s == Find(done, from.entries[i].key)
    ensures CarryUpTo(shape, from, done, n) == done
  {
    hide Settled;
    if n > 0 {
      CarrySettled(shape, from, done, n - 1);
      var pair := from.entries[n - 1];
      var s := Settled(shape, pair, Find(done, pair.key));
      if s.Some? {
        PutSame(done.entries, pair.key, s.value);
      }
    }
  }

  /** Carrying twice is carrying once, entry order included. */
  lemma {:induction false} CarryIdempotent(shape: Shape, from: Node, into: Node)
    requires UniqueKeys(from)
    ensures Carry(shape, from, Carry(shape, from, into)) == Carry(shape, from, into)
    decreases from, 1
  {
    if from.Obj? && into.Obj? {
      hide Settled, CarryUpTo;
      var once := Carry(shape, from, into);
      forall i | 0 <= i < |from.entries|
        ensures var s := Settled(shape, from.entries[i], Find(once, from.entries[i].key));
                s.Some? ==> s == Find(once, from.entries[i].key)
      {
        var pair := from.entries[i];
        LookupAt(from.entries, i);
        CarryFind(shape, from, into, pair.key);
        assert Pair(pair.key, pair.value) == pair;
        SettledTwice(shape, pair, Find(into, pair.key));
      }
      assert once.Obj?;
      CarrySettled(shape, from, once, |from.entries|);
    }
  }

  // ----- Filling does not see it -----

  /** A config filled from the merged document is the config filled from the one it was merged into:
      the merge changes no declared value, at any depth. */
  lemma {:induction false} LoadIgnoresCarry(shape: Shape, vals: Values, from: Node, into: Node)
    requires Fits(shape, vals) && UniqueNames(shape) && UniqueKeys(from)
    ensures Load(shape, vals, Carry(shape, from, into)) == Load(shape, vals, into)
    ensures HasOutsider(shape, Carry(shape, from, into)) <==> HasOutsider(shape, into)
    decreases from, 1
  {
    if from.Obj? && into.Obj? {
      var merged := Carry(shape, from, into);
      forall i | 0 <= i < |shape.decls|
        ensures LoadCell(shape.decls[i].kind, vals.cells[i], Find(merged, shape.decls[i].name)) ==
                LoadCell(shape.decls[i].kind, vals.cells[i], Find(into, shape.decls[i].name))
        ensures OutsiderIn(shape.decls[i].kind, Find(merged, shape.decls[i].name)) <==>
                OutsiderIn(shape.decls[i].kind, Find(into, shape.decls[i].name))
      {
        var d := shape.decls[i];
        DeclaredAt(shape, i);
        CarryFind(shape, from, into, d.name);
        var at := IndexOf(from.entries, d.name);
        if at.Some? {
          assert UniqueNamesIn(d.kind);
          LoadIgnoresSettled(shape, i, vals.cells[i], from.entries[at.value], Find(into, d.name));
          assert from.entries[at.value] == Pair(d.name, from.entries[at.value].value);
        }
      }
      assert Load(shape, vals, merged).cells == Load(shape, vals, into).cells;
    }
  }

  lemma {:induction false} LoadIgnoresSettled(shape: Shape, i: nat, cell: Cell, pair: Pair, held: Option<Node>)
    requires i < |shape.decls| && UniqueNames(shape) && UniqueNamesIn(shape.decls[i].kind)
    requires shape.decls[i].name == pair.key
    requires FitsCell(shape.decls[i].kind, cell) && UniqueKeys(pair.value)
    ensures var kind := shape.decls[i].kind;
            var s := Settled(shape, pair, held);
            var now := if s.Some? then s else held;
            && LoadCell(kind, cell, now) == LoadCell(kind, cell, held)
            && (OutsiderIn(kind, now) <==> OutsiderIn(kind, held))
    decreases pair, 0
  {
    DeclaredAt(shape, i);
    var kind := shape.decls[i].kind;
    match kind
    case Group(inner) =>
      var before := if held.Some? then held.value else EMPTY_OBJECT;
      LoadIgnoresCarry(inner, cell.inner, pair.value, before);
      LoadNothing(inner, cell.inner, EMPTY_OBJECT);
    case Objects(element) =>
      if held.Some? && held.value.Arr? && pair.value.Arr? {
        LoadIgnoresItems(element, cell, pair.value, held.value);
      }
    case _ =>
  }

  lemma {:induction false} LoadIgnoresItems(element: Shape, cell: Cell, from: Node, into: Node)
    requires FitsCell(Objects(element), cell) && UniqueNames(element)
    requires from.Arr? && into.Arr? && UniqueKeys(from)
    ensures LoadCell(Objects(element), cell, Some(CarryItems(element, from, into))) ==
            LoadCell(Objects(element), cell, Some(into))
    ensures OutsiderIn(Objects(element), Some(CarryItems(element, from, into))) <==>
            OutsiderIn(Objects(element), Some(into))
    decreases from, 0
  {
    var merged := CarryItems(element, from, into);
    forall i | 0 <= i < |into.items|
      ensures merged.items[i].Obj? == into.items[i].Obj?
      ensures var held := if i < |cell.elements| then cell.elements[i] else Fresh(element);
              LoadElement(element, held, merged.items[i]) == LoadElement(element, held, into.items[i])
      ensures HasOutsider(element, merged.items[i]) <==> HasOutsider(element, into.items[i])
    {
      if i < |from.items| {
        var held := if i < |cell.elements| then cell.elements[i] else Fresh(element);
        LoadIgnoresCarry(element, held, from.items[i], into.items[i]);
      }
    }
    assert LoadCell(Objects(element), cell, Some(merged)).elements ==
           LoadCell(Objects(element), cell, Some(into)).elements;
  }

  // ----- Taking a document apart and putting it together -----

  /** The part of a document its schema declares, at every depth. */
  function DeclaredPart(shape: Shape, doc: Node): Node
    decreases doc, 1, 0
  {
    if doc.Obj? then Obj(DeclaredUpTo(shape, doc, |doc.entries|)) else doc
  }

  function DeclaredUpTo(shape: Shape, doc: Node, n: nat): seq<Pair>
    requires doc.Obj? && n <= |doc.entries|
    decreases doc, 0, n
  {
    if n == 0 then []
    else
      var pair := doc.entries[n - 1];
      var d := Declared(shape.decls, pair.key);
      DeclaredUpTo(shape, doc, n - 1)
      + (if d.Some? then [Pair(pair.key, DeclaredValue(shape.decls[d.value].kind, pair.value))] else [])
  }

  function DeclaredValue(kind: Kind, v: Node): Node
    decreases v, 2, 0
  {
    match kind
    case Group(inner) => DeclaredPart(inner, v)
    case Objects(element) =>
      if v.Arr? then Arr(seq(|v.items|, i requires 0 <= i < |v.items| => DeclaredPart(element, v.items[i]))) else v
    case _ => v
  }

  /** No undeclared key in the document's objects, at any depth the declaration reaches. */
  ghost predicate Bare(shape: Shape, n: Node)
    decreases n, 1
  {
    n.Obj? ==>
      forall i | 0 <= i < |n.entries| ::
        var d := Declared(shape.decls, n.entries[i].key);
        d.Some? && BareIn(shape.decls[d.value].kind, n.entries[i].value)
  }

  ghost predicate BareIn(kind: Kind, v: Node)
    decreases v, 2
  {
    match kind
    case Group(inner) => Bare(inner, v)
    case Objects(element) => v.Arr? ==> forall i | 0 <= i < |v.items| :: Bare(element, v.items[i])
    case _ => true
  }

  lemma {:induction false} DeclaredPartBare(shape: Shape, doc: Node)
    ensures Bare(shape, DeclaredPart(shape, doc))
    decreases doc, 1, 0
  {
    if doc.Obj? {
      DeclaredUpToBare(shape, doc, |doc.entries|);
    }
  }

  lemma {:induction false} DeclaredUpToBare(shape: Shape, doc: Node, n: nat)
    requires doc.Obj? && n <= |doc.entries|
    ensures forall pair | pair in DeclaredUpTo(shape, doc, n) ::
              var d := Declared(shape.decls, pair.key);
              d.Some? && BareIn(shape.decls[d.value].kind, pair.value)
    decreases doc, 0, n
  {
    hide BareIn, DeclaredValue;
    if n > 0 {
      DeclaredUpToBare(shape, doc, n - 1);
      var pair := doc.entries[n - 1];
      var d := Declared(shape.decls, pair.key);
      if d.Some? {
        DeclaredValueBare(shape.decls[d.value].kind, pair.value);
      }
    }
  }

  lemma {:induction false} DeclaredValueBare(kind: Kind, v: Node)
    ensures BareIn(kind, DeclaredValue(kind, v))
    decreases v, 2, 0
  {
    match kind
    case Group(inner) => DeclaredPartBare(inner, v);
    case Objects(element) =>
      if v.Arr? {
        forall i | 0 <= i < |v.items| ensures Bare(element, DeclaredPart(element, v.items[i])) {
          DeclaredPartBare(element, v.items[i]);
        }
      }
    case _ =>
  }

  lemma {:induction false} LookupAppend(entries: seq<Pair>, pair: Pair, key: string)
    ensures Lookup(entries + [pair], key) ==
            if Lookup(entries, key).Some? then Lookup(entries, key)
            else if pair.key == key then Some(pair.value) else None
  {
    if entries == [] {
      assert [pair][1..] == [];
    } else {
      LookupAppend(entries[1..], pair, key);
      assert (entries + [pair])[1..] == entries[1..] + [pair];
    }
  }

  lemma {:induction false} DeclaredUpToFind(shape: Shape, doc: Node, n: nat, key: string)
    requires doc.Obj? && DistinctKeys(doc.entries) && n <= |doc.entries|
    ensures Lookup(DeclaredUpTo(shape, doc, n), key) ==
            var at := IndexOf(doc.entries, key);
            var d := Declared(shape.decls, key);
            if at.Some? && at.value < n && d.Some?
            then Some(DeclaredValue(shape.decls[d.value].kind, doc.entries[at.value].value)) else None
  {
    hide DeclaredValue, Lookup, Declared, IndexOf, PutEntry;
    if n == 0 {
      assert DeclaredUpTo(shape, doc, 0) == [];
    } else {
      var pair := doc.entries[n - 1];
      DeclaredUpToFind(shape, doc, n - 1, key);
      IndexOfAt(doc.entries, n - 1);
      var d := Declared(shape.decls, pair.key);
      if d.Some? {
        var value := DeclaredValue(shape.decls[d.value].kind, pair.value);
        LookupAppend(DeclaredUpTo(shape, doc, n - 1), Pair(pair.key, value), key);
      } else {
        assert DeclaredUpTo(shape, doc, n) == DeclaredUpTo(shape, doc, n - 1);
      }
    }
  }

  lemma {:induction false} SameRefl(n: Node)
    requires UniqueKeys(n)
    ensures Same(n, n)
  {
    match n
    case Arr(items) => forall i | 0 <= i < |items| ensures Same(items[i], items[i]) { SameRefl(items[i]); }
    case Obj(entries) =>
      forall i | 0 <= i < |entries|
        ensures Find(n, entries[i].key) == Some(entries[i].value) && Same(entries[i].value, entries[i].value)
      {
        LookupAt(entries, i);
        SameRefl(entries[i].value);
      }
    case _ =>
  }

  /** For every document with unique keys: its declared part, which holds no undeclared key, with the
      undeclared keys carried back from the document, is the document again up to the order of entries. */
  lemma {:induction false} CarryRebuilds(shape: Shape, doc: Node)
    requires UniqueKeys(doc)
    ensures Same(doc, Carry(shape, doc, DeclaredPart(shape, doc)))
    ensures Bare(shape, DeclaredPart(shape, doc))
    decreases doc, 1
  {
    DeclaredPartBare(shape, doc);
    var part := DeclaredPart(shape, doc);
    if !doc.Obj? {
      SameRefl(doc);
      return;
    }
    var whole := Carry(shape, doc, part);
    forall i | 0 <= i < |doc.entries|
      ensures Find(whole, doc.entries[i].key).Some?
      ensures Same(doc.entries[i].value, Find(whole, doc.entries[i].key).value)
    {
      var pair := doc.entries[i];
      IndexOfAt(doc.entries, i);
      CarryFind(shape, doc, part, pair.key);
      DeclaredUpToFind(shape, doc, |doc.entries|, pair.key);
      assert Pair(pair.key, pair.value) == pair;
      SettledRebuilds(shape, pair);
    }
    forall key | Find(whole, key).Some? ensures Find(doc, key).Some? {
      CarryFind(shape, doc, part, key);
      DeclaredUpToFind(shape, doc, |doc.entries|, key);
    }
  }

  lemma {:induction false} SettledRebuilds(shape: Shape, pair: Pair)
    requires UniqueKeys(pair.value)
    ensures var d := Declared(shape.decls, pair.key);
            var held := if d.Some? then Some(DeclaredValue(shape.decls[d.value].kind, pair.value)) else None;
            var s := Settled(shape, pair, held);
            var now := if s.Some? then s else held;
            now.Some? && Same(pair.value, now.value)
    decreases pair, 0
  {
    SameRefl(pair.value);
    var d := Declared(shape.decls, pair.key);
    if d.None? { return; }
    match shape.decls[d.value].kind
    case Group(inner) =>
      CarryRebuilds(inner, pair.value);
      var merged := Carry(inner, pair.value, DeclaredPart(inner, pair.value));
      if pair.value.Obj? && pair.value.entries != [] {
        assert Find(merged, pair.value.entries[0].key).Some?;
      }
    case Objects(element) =>
      if pair.value.Arr? {
        var held := DeclaredValue(Objects(element), pair.value);
        forall i | 0 <= i < |pair.value.items|
          ensures Same(pair.value.items[i], Carry(element, pair.value.items[i], held.items[i]))
        {
          CarryRebuilds(element, pair.value.items[i]);
        }
      }
    case _ =>
  }

  // ----- No undeclared key is lost -----

  /** Every undeclared key of `from` stands in `into` with its value: at the top, inside every object
      the schema declares, and in every array element both documents have. */
  ghost predicate KeepsUnknown(shape: Shape, from: Node, into: Node)
    decreases from, 1
  {
    from.Obj? && into.Obj? ==>
      forall i | 0 <= i < |from.entries| :: KeepsKey(shape, from.entries[i], Find(into, from.entries[i].key))
  }

  ghost predicate KeepsKey(shape: Shape, pair: Pair, held: Option<Node>)
    decreases pair, 0
  {
    var d := Declared(shape.decls, pair.key);
    if d.None? then held == Some(pair.value) else
    match shape.decls[d.value].kind
    case Group(inner) =>
      if held.None? then NothingUnknown(inner, pair.value) else KeepsUnknown(inner, pair.value, held.value)
    case Objects(element) =>
      held.Some? && held.value.Arr? && pair.value.Arr? ==>
        forall i | 0 <= i < |pair.value.items| && i < |held.value.items| ::
          KeepsUnknown(element, pair.value.items[i], held.value.items[i])
    case _ => true
  }

  /** No undeclared key here or in a nested object. */
  ghost predicate NothingUnknown(shape: Shape, n: Node)
    decreases n
  {
    n.Obj? ==>
      forall i | 0 <= i < |n.entries| ::
        var d := Declared(shape.decls, n.entries[i].key);
        && d.Some?
        && (shape.decls[d.value].kind.Group? ==>
              NothingUnknown(shape.decls[d.value].kind.inner, n.entries[i].value))
  }

  /** Carrying into an empty object leaves it empty only if there was nothing to carry. */
  lemma {:induction false} EmptyMeansNothing(shape: Shape, from: Node)
    requires UniqueKeys(from) && Entries(Carry(shape, from, EMPTY_OBJECT)) == []
    ensures NothingUnknown(shape, from)
    decreases from
  {
    if from.Obj? {
      forall i | 0 <= i < |from.entries|
        ensures var d := Declared(shape.decls, from.entries[i].key);
                && d.Some?
                && (shape.decls[d.value].kind.Group? ==>
                      NothingUnknown(shape.decls[d.value].kind.inner, from.entries[i].value))
      {
        var pair := from.entries[i];
        LookupAt(from.entries, i);
        CarryFind(shape, from, EMPTY_OBJECT, pair.key);
        assert Pair(pair.key, pair.value) == pair;
        var d := Declared(shape.decls, pair.key);
        if d.Some? && shape.decls[d.value].kind.Group? {
          EmptyMeansNothing(shape.decls[d.value].kind.inner, pair.value);
        }
      }
    }
  }

  lemma {:induction false} NothingToCarry(shape: Shape, from: Node)
    requires NothingUnknown(shape, from)
    ensures Carry(shape, from, EMPTY_OBJECT) == EMPTY_OBJECT
    decreases from, 1
  {
    if from.Obj? {
      NothingUpTo(shape, from, |from.entries|);
    }
  }

  lemma {:induction false} NothingUpTo(shape: Shape, from: Node, n: nat)
    requires NothingUnknown(shape, from) && from.Obj? && n <= |from.entries|
    ensures CarryUpTo(shape, from, EMPTY_OBJECT, n) == EMPTY_OBJECT
    decreases from, 0, n
  {
    if n > 0 {
      NothingUpTo(shape, from, n - 1);
      var pair := from.entries[n - 1];
      var d := Declared(shape.decls, pair.key);
      if shape.decls[d.value].kind.Group? {
        NothingToCarry(shape.decls[d.value].kind.inner, pair.value);
      }
      assert Find(EMPTY_OBJECT, pair.key) == None && Settled(shape, pair, None) == None;
      assert CarryUpTo(shape, from, EMPTY_OBJECT, n) == CarryKey(shape, pair, EMPTY_OBJECT);
    }
  }

  /** The merge adds a key to an object exactly when the loaded document has it there and no field declares it,
      or a group declares it and there is an undeclared key below. */
  lemma CarryAddsOnly(shape: Shape, from: Node, into: Node, key: string)
    requires UniqueKeys(from) && from.Obj? && into.Obj? && Find(into, key).None?
    ensures Find(Carry(shape, from, into), key).Some? <==>
            && Find(from, key).Some?
            && var d := Declared(shape.decls, key);
               || d.None?
               || (shape.decls[d.value].kind.Group?
                   && !NothingUnknown(shape.decls[d.value].kind.inner, Find(from, key).value))
  {
    hide NothingUnknown, Carry, CarryUpTo;
    CarryFind(shape, from, into, key);
    var found, d := Find(from, key), Declared(shape.decls, key);
    if found.Some? && d.Some? && shape.decls[d.value].kind.Group? {
      var inner := shape.decls[d.value].kind.inner;
      FoundBelow(from, key);
      if NothingUnknown(inner, found.value) {
        NothingToCarry(inner, found.value);
      } else if Entries(Carry(inner, found.value, EMPTY_OBJECT)) == [] {
        EmptyMeansNothing(inner, found.value);
      }
    }
  }

  lemma FoundBelow(n: Node, key: string)
    requires UniqueKeys(n) && Find(n, key).Some?
    ensures UniqueKeys(Find(n, key).value)
  {}

  lemma {:induction false} CarryKeepsUnknown(shape: Shape, from: Node, into: Node)
    requires UniqueKeys(from)
    ensures KeepsUnknown(shape, from, Carry(shape, from, into))
    decreases from, 1
  {
    if from.Obj? && into.Obj? {
      forall i | 0 <= i < |from.entries|
        ensures KeepsKey(shape, from.entries[i], Find(Carry(shape, from, into), from.entries[i].key))
      {
        var pair := from.entries[i];
        LookupAt(from.entries, i);
        CarryFind(shape, from, into, pair.key);
        assert Pair(pair.key, pair.value) == pair;
        SettledKeeps(shape, pair, Find(into, pair.key));
      }
    }
  }

  lemma {:induction false} SettledKeeps(shape: Shape, pair: Pair, held: Option<Node>)
    requires UniqueKeys(pair.value)
    ensures var s := Settled(shape, pair, held);
            KeepsKey(shape, pair, if s.Some? then s else held)
    decreases pair, 0
  {
    var d := Declared(shape.decls, pair.key);
    if d.None? { return; }
    match shape.decls[d.value].kind
    case Group(inner) =>
      var before := if held.Some? then held.value else EMPTY_OBJECT;
      CarryKeepsUnknown(inner, pair.value, before);
      if held.None? && Entries(Carry(inner, pair.value, before)) == [] {
        EmptyMeansNothing(inner, pair.value);
      } else if held.Some? && Entries(Carry(inner, pair.value, before)) == [] && before.Obj? {
        assert before == Carry(inner, pair.value, before) by {
          CarryOnlyAdds(inner, pair.value, before);
        }
      }
    case Objects(element) =>
      if held.Some? && held.value.Arr? && pair.value.Arr? {
        forall i | 0 <= i < |pair.value.items| && i < |held.value.items|
          ensures KeepsUnknown(element, pair.value.items[i], Carry(element, pair.value.items[i], held.value.items[i]))
        {
          CarryKeepsUnknown(element, pair.value.items[i], held.value.items[i]);
        }
      }
    case _ =>
  }

  /** No key of `into` goes away. */
  lemma CarryOnlyAdds(shape: Shape, from: Node, into: Node)
    requires from.Obj? ==> DistinctKeys(from.entries)
    requires into.Obj? && Entries(Carry(shape, from, into)) == []
    ensures into == EMPTY_OBJECT
  {
    if from.Obj? && into.entries != [] {
      CarryFind(shape, from, into, into.entries[0].key);
    }
  }
}
