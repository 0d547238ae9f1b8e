/** The problems load_fields reports beside misfits: required fields nobody filled, and undeclared keys. */
module ConfigProblems {
  import opened Common
  import opened ConfigNode
  import opened ConfigShape
  import opened ConfigMisfits
  import opened ConfigFill

  // ----- What is missing and what is strange, said without walking -----

  /** The address is one of a required field, in the config itself or in an object the document holds for a
      group or an element, and the document has nothing or null there. */
  ghost predicate Lacks(shape: Shape, doc: Node, at: seq<Step>)
    decreases shape
  {
    at != [] && at[0].Key? &&
    exists i :: 0 <= i < |shape.decls| && shape.decls[i].name == at[0].key
                && LacksIn(shape.decls[i].kind, Find(doc, at[0].key), at[1..])
  }

  ghost predicate LacksIn(kind: Kind, found: Option<Node>, rest: seq<Step>)
    decreases kind
  {
    match kind
    case Leaf(_, fallback, _) => rest == [] && fallback == None && (found == None || found == Some(Null))
    case Group(inner) => found.Some? && found.value.Obj? && Lacks(inner, found.value, rest)
    case Leaves(_, _, _) => false
    case Objects(element) =>
      && found.Some? && found.value.Arr?
      && rest != [] && rest[0].Index? && rest[0].i < |found.value.items|
      && found.value.items[rest[0].i].Obj? && Lacks(element, found.value.items[rest[0].i], rest[1..])
  }

  /** The address is one of a key no field declares, in the document itself or in an object it holds for a
      group or an element. */
  ghost predicate Strange(shape: Shape, doc: Node, at: seq<Step>)
    decreases shape
  {
    at != [] && at[0].Key? &&
    (StrangeHere(shape, doc, at) ||
     exists i :: 0 <= i < |shape.decls| && shape.decls[i].name == at[0].key
                 && StrangeIn(shape.decls[i].kind, Find(doc, at[0].key), at[1..]))
  }

  ghost predicate StrangeHere(shape: Shape, doc: Node, at: seq<Step>) {
    && |at| == 1 && at[0].Key? && Find(doc, at[0].key).Some?
    && forall i | 0 <= i < |shape.decls| :: shape.decls[i].name != at[0].key
  }

  ghost predicate StrangeIn(kind: Kind, found: Option<Node>, rest: seq<Step>)
    decreases kind
  {
    match kind
    case Group(inner) => found.Some? && found.value.Obj? && Strange(inner, found.value, rest)
    case Objects(element) =>
      && found.Some? && found.value.Arr?
      && rest != [] && rest[0].Index? && rest[0].i < |found.value.items|
      && found.value.items[rest[0].i].Obj? && Strange(element, found.value.items[rest[0].i], rest[1..])
    case _ => false
  }

  // ----- The same, for the parts of a document -----

  /** Whether the problem is one of the config behind the address `before`. */
  ghost predicate Due(shape: Shape, doc: Node, before: seq<Step>, p: Problem) {
    match p
    case Misfit(_) => false
    case Missing(at) => before <= at && Lacks(shape, doc, at[|before|..])
    case Unknown(at) => before <= at && Strange(shape, doc, at[|before|..])
  }

  ghost predicate DueIn(kind: Kind, found: Option<Node>, before: seq<Step>, p: Problem) {
    match p
    case Misfit(_) => false
    case Missing(at) => before <= at && LacksIn(kind, found, at[|before|..])
    case Unknown(at) => before <= at && StrangeIn(kind, found, at[|before|..])
  }

  ghost predicate DueUpTo(shape: Shape, doc: Node, before: seq<Step>, n: nat, p: Problem)
    requires n <= |shape.decls|
  {
    exists i :: 0 <= i < n && DueIn(shape.decls[i].kind, Find(doc, shape.decls[i].name),
                                    before + [Key(shape.decls[i].name)], p)
  }

  /** What is due at an element, for an array of scalars nothing. */
  ghost predicate DueAtItem(kind: Kind, n: Node, before: seq<Step>, p: Problem) {
    kind.Objects? && n.Obj? && Due(kind.element, n, before, p)
  }

  ghost predicate DueItems(kind: Kind, items: seq<Node>, before: seq<Step>, n: nat, p: Problem)
    requires n <= |items|
  {
    exists i :: 0 <= i < n && DueAtItem(kind, items[i], before + [Index(i)], p)
  }

  /** An address under `before` and one step more. */
  lemma OneStepMore(before: seq<Step>, step: Step, at: seq<Step>)
    ensures before + [step] <= at <==> before <= at && |before| < |at| && at[|before|] == step
    ensures before + [step] <= at ==> at[|before|..] != [] && at[|before|..][0] == step
                                      && at[|before|..][1..] == at[|before + [step]|..]
  {
    if before <= at && |before| < |at| && at[|before|] == step {
      assert at[..|before| + 1] == before + [step];
    }
  }

  ghost function AddressOf(p: Problem): seq<Step> {
    match p case Misfit(line) => line.at case Missing(at) => at case Unknown(at) => at
  }

  /** What is due in a config is due in one of its fields, or a key of its own that none declares. */
  lemma DueSplits(shape: Shape, doc: Node, before: seq<Step>, p: Problem)
    ensures Due(shape, doc, before, p) <==>
            || DueUpTo(shape, doc, before, |shape.decls|, p)
            || (p.Unknown? && before <= p.at && StrangeHere(shape, doc, p.at[|before|..]))
  {
    hide LacksIn, StrangeIn, Lookup;
    var at := AddressOf(p);
    forall i | 0 <= i < |shape.decls|
      ensures before + [Key(shape.decls[i].name)] <= at <==>
              before <= at && |before| < |at| && at[|before|] == Key(shape.decls[i].name)
      ensures before + [Key(shape.decls[i].name)] <= at ==>
                at[|before|..][0] == Key(shape.decls[i].name)
                && at[|before|..][1..] == at[|before + [Key(shape.decls[i].name)]|..]
    {
      OneStepMore(before, Key(shape.decls[i].name), at);
    }
    if Due(shape, doc, before, p) {
      var rest := at[|before|..];
      if p.Missing? {
        var i :| 0 <= i < |shape.decls| && shape.decls[i].name == rest[0].key
                 && LacksIn(shape.decls[i].kind, Find(doc, rest[0].key), rest[1..]);
        assert DueIn(shape.decls[i].kind, Find(doc, shape.decls[i].name), before + [Key(shape.decls[i].name)], p);
      } else if !StrangeHere(shape, doc, rest) {
        var i :| 0 <= i < |shape.decls| && shape.decls[i].name == rest[0].key
                 && StrangeIn(shape.decls[i].kind, Find(doc, rest[0].key), rest[1..]);
        assert DueIn(shape.decls[i].kind, Find(doc, shape.decls[i].name), before + [Key(shape.decls[i].name)], p);
      }
    }
  }

  /** What is due in an array of objects is due at one of its elements. */
  lemma DueItemsAre(element: Shape, items: seq<Node>, before: seq<Step>, p: Problem)
    ensures DueIn(Objects(element), Some(Arr(items)), before, p) <==>
            DueItems(Objects(element), items, before, |items|, p)
  {
    hide Lacks, Strange;
    var at := AddressOf(p);
    forall i | 0 <= i < |items|
      ensures before + [Index(i)] <= at <==> before <= at && |before| < |at| && at[|before|] == Index(i)
      ensures before + [Index(i)] <= at ==>
                at[|before|..][0] == Index(i) && at[|before|..][1..] == at[|before + [Index(i)]|..]
    {
      OneStepMore(before, Index(i), at);
    }
    if DueIn(Objects(element), Some(Arr(items)), before, p) {
      assert DueAtItem(Objects(element), items[at[|before|..][0].i], before + [Index(at[|before|..][0].i)], p);
    }
  }

  // ----- What is reported -----

  lemma ReportedMisfits(lines: seq<Line>, p: Problem)
    ensures p in Reported(lines) ==> p.Misfit?
  {}

  lemma {:induction false} StrangersAre(shape: Shape, entries: seq<Pair>, before: seq<Step>, n: nat, p: Problem)
    requires n <= |entries|
    ensures p in Strangers(shape, entries, before, n) <==>
            && p.Unknown? && |p.at| == |before| + 1 && before == p.at[..|before|] && p.at[|before|].Key?
            && (exists k :: 0 <= k < n && entries[k].key == p.at[|before|].key)
            && forall i | 0 <= i < |shape.decls| :: shape.decls[i].name != p.at[|before|].key
  {
    if n > 0 {
      StrangersAre(shape, entries, before, n - 1, p);
      var key := entries[n - 1].key;
      if Declared(shape.decls, key).None? && p == Unknown(before + [Key(key)]) {
        assert p.at[..|before|] == before;
      }
      if p.Unknown? && |p.at| == |before| + 1 && before == p.at[..|before|] && p.at[|before|] == Key(key) {
        assert p.at == before + [Key(key)];
      }
    }
  }

  lemma {:induction false} FieldProblemsAre(shape: Shape, doc: Node, before: seq<Step>, n: nat, p: Problem)
    requires n <= |shape.decls| && !p.Misfit?
    ensures p in FieldProblems(shape, doc, before, n) <==> DueUpTo(shape, doc, before, n, p)
    decreases shape, n
  {
    hide CellProblems, DueIn, Lookup;
    if n > 0 {
      var d := shape.decls[n - 1];
      FieldProblemsAre(shape, doc, before, n - 1, p);
      CellProblemsAre(d.kind, Find(doc, d.name), before + [Key(d.name)], p);
    }
  }

  lemma {:induction false} CellProblemsAre(kind: Kind, found: Option<Node>, at: seq<Step>, p: Problem)
    requires !p.Misfit?
    ensures p in CellProblems(kind, found, at) <==> DueIn(kind, found, at, p)
    decreases kind, 1
  {
    hide Lacks, Strange, Problems, Due;
    if Absent(found) {
      if kind.Leaf? && AddressOf(p) == at {
        assert at[|at|..] == [];
      }
      if at <= AddressOf(p) && AddressOf(p)[|at|..] == [] {
        assert AddressOf(p) == at;
      }
      return;
    }
    var n := found.value;
    match kind
    case Leaf(form, _, options) => ReportedMisfits(ScalarLines(form, options, n, at), p);
    case Group(inner) =>
      if n.Obj? {
        ProblemsAre(inner, n, at, p);
        assert Due(inner, n, at, p) <==> DueIn(kind, found, at, p) by { GroupDue(inner, n, at, p); }
      }
    case Leaves(_, _, _) => if n.Arr? { ItemProblemsAre(kind, n.items, at, |n.items|, p); }
    case Objects(element) =>
      if n.Arr? {
        ItemProblemsAre(kind, n.items, at, |n.items|, p);
        DueItemsAre(element, n.items, at, p);
      }
  }

  lemma GroupDue(inner: Shape, n: Node, at: seq<Step>, p: Problem)
    requires n.Obj?
    ensures Due(inner, n, at, p) <==> DueIn(Group(inner), Some(n), at, p)
  {
    hide Lacks, Strange;
  }

  lemma {:induction false} ItemProblemsAre(kind: Kind, items: seq<Node>, at: seq<Step>, n: nat, p: Problem)
    requires (kind.Leaves? || kind.Objects?) && n <= |items| && !p.Misfit?
    ensures p in ItemProblems(kind, items, at, n) <==> DueItems(kind, items, at, n, p)
    decreases kind, 0, n
  {
    hide Problems, Due;
    if n > 0 {
      ItemProblemsAre(kind, items, at, n - 1, p);
      var here := at + [Index(n - 1)];
      if kind.Leaves? {
        ReportedMisfits(ScalarLines(kind.form, kind.options, items[n - 1], here), p);
      } else if items[n - 1].Obj? {
        ProblemsAre(kind.element, items[n - 1], here, p);
      }
    }
  }

  /** Beside misfits, load_fields reports exactly the required fields the document does not fill and exactly
      the keys no field declares, at every depth the document's objects reach. */
  lemma {:induction false} ProblemsAre(shape: Shape, doc: Node, before: seq<Step>, p: Problem)
    requires !p.Misfit?
    ensures p in Problems(shape, doc, before) <==> Due(shape, doc, before, p)
    decreases shape, |shape.decls| + 1
  {
    hide FieldProblems, Due, DueUpTo, Strangers;
    FieldProblemsAre(shape, doc, before, |shape.decls|, p);
    StrangersAre(shape, Entries(doc), before, |Entries(doc)|, p);
    DueSplits(shape, doc, before, p);
    if p.Unknown? && before <= p.at && |p.at| == |before| + 1 {
      assert p.at[|before|..][0] == p.at[|before|];
    }
  }

  /** The two kinds of problem of a whole document, by address. */
  lemma ProblemsOf(shape: Shape, doc: Node, at: seq<Step>)
    ensures Missing(at) in Problems(shape, doc, []) <==> Lacks(shape, doc, at)
    ensures Unknown(at) in Problems(shape, doc, []) <==> Strange(shape, doc, at)
  {
    hide Lacks, Strange, Problems;
    ProblemsAre(shape, doc, [], Missing(at));
    ProblemsAre(shape, doc, [], Unknown(at));
    assert at[0..] == at;
  }
}
