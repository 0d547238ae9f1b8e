/** Which documents the editor's rows can carry back, and what it says about the others. */
module ConfigMisfits {
  import opened Common
  import opened ConfigNode
  import opened ConfigShape

  datatype Complaint = WrongForm(found: Node) | NotListed(text: Node)

  /** One line of the answer: where the value stands and what is wrong with it. */
  datatype Line = Line(at: seq<Step>, complaint: Complaint)

  function Holds(form: Form, n: Node): bool {
    match form
    case Boolean => n.Bool?
    case Integer => n.Int?
    case Decimal => n.Int? || n.Real?
    case Text => n.Str?
  }

  /** The check of one scalar, in a field or in an array: its form, and for a text its listing. */
  function ScalarLines(form: Form, options: seq<Scalar>, n: Node, at: seq<Step>): seq<Line> {
    if !Holds(form, n) then [Line(at, WrongForm(n))]
    else if form == Text && !Allows(options, S(n.s)) then [Line(at, NotListed(n))]
    else []
  }

  function Misfits(shape: Shape, doc: Node, prefix: seq<Step>): seq<Line>
    decreases shape, |shape.decls| + 1
  {
    MisfitsUpTo(shape, doc, prefix, |shape.decls|)
  }

  function MisfitsUpTo(shape: Shape, doc: Node, prefix: seq<Step>, n: nat): seq<Line>
    requires n <= |shape.decls|
    decreases shape, n
  {
    if n == 0 then []
    else
      var d := shape.decls[n - 1];
      MisfitsUpTo(shape, doc, prefix, n - 1) + FieldLines(d.kind, Find(doc, d.name), prefix + [Key(d.name)])
  }

  function FieldLines(kind: Kind, found: Option<Node>, at: seq<Step>): seq<Line>
    decreases kind, 0
  {
    if Absent(found) then [] else
    var n := found.value;
    match kind
    case Leaf(form, _, options) => ScalarLines(form, options, n, at)
    case Group(inner) => if !n.Obj? then [Line(at, WrongForm(n))] else Misfits(inner, n, at)
    case Leaves(_, _, _) => if !n.Arr? then [Line(at, WrongForm(n))] else ItemLines(kind, n.items, at, |n.items|)
    case Objects(_) => if !n.Arr? then [Line(at, WrongForm(n))] else ItemLines(kind, n.items, at, |n.items|)
  }

  function ItemLines(kind: Kind, items: seq<Node>, at: seq<Step>, n: nat): seq<Line>
    requires (kind.Leaves? || kind.Objects?) && n <= |items|
    decreases kind, 0, n
  {
    if n == 0 then []
    else ItemLines(kind, items, at, n - 1) + OneItemLines(kind, items[n - 1], at + [Index(n - 1)])
  }

  function OneItemLines(kind: Kind, n: Node, at: seq<Step>): seq<Line>
    requires kind.Leaves? || kind.Objects?
    decreases kind, 0, 0
  {
    match kind
    case Leaves(form, options, _) => ScalarLines(form, options, n, at)
    case Objects(element) => if !n.Obj? then [Line(at, WrongForm(n))] else Misfits(element, n, at)
  }

  /** The whole answer: a document that is neither an object nor null is one line of its own. */
  function AllMisfits(shape: Shape, stored: Node): seq<Line> {
    if !stored.Obj? && !stored.Null? then [Line([], WrongForm(stored))] else Misfits(shape, stored, [])
  }

  lemma AbsentLines(kind: Kind, found: Option<Node>, at: seq<Step>)
    ensures Absent(found) ==> FieldLines(kind, found, at) == []
  {}

  /** The loops of the check, adding lines to the answer as they find them. */
  method CollectMisfits(shape: Shape, doc: Node, prefix: seq<Step>, soFar: seq<Line>) returns (found: seq<Line>)
    ensures found == soFar + Misfits(shape, doc, prefix)
    decreases shape, 0
  {
    hide FieldLines, Lookup;
    found := soFar;
    for i := 0 to |shape.decls|
      invariant found == soFar + MisfitsUpTo(shape, doc, prefix, i)
    {
      var d := shape.decls[i];
      var value := Find(doc, d.name);
      AbsentLines(d.kind, value, prefix + [Key(d.name)]);
      if value.None? || value.value.Null? {
        continue;
      }
      var more := CollectField(d.kind, value.value, prefix + [Key(d.name)]);
      assert found + more == soFar + (MisfitsUpTo(shape, doc, prefix, i) + more);
      found := found + more;
    }
  }

  method CollectField(kind: Kind, n: Node, at: seq<Step>) returns (found: seq<Line>)
    requires !n.Null?
    ensures found == FieldLines(kind, Some(n), at)
    decreases kind, 0
  {
    if kind.Leaf? {
      return ScalarLines(kind.form, kind.options, n, at);
    }
    if if kind.Group? then !n.Obj? else !n.Arr? {
      return [Line(at, WrongForm(n))];
    }
    if kind.Group? {
      found := CollectMisfits(kind.inner, n, at, []);
      return;
    }
    found := [];
    for j := 0 to |n.items|
      invariant found == ItemLines(kind, n.items, at, j)
    {
      if kind.Leaves? {
        found := found + ScalarLines(kind.form, kind.options, n.items[j], at + [Index(j)]);
      } else if !n.items[j].Obj? {
        found := found + [Line(at + [Index(j)], WrongForm(n.items[j]))];
      } else {
        found := CollectMisfits(kind.element, n.items[j], at + [Index(j)], found);
      }
    }
  }

  // ----- Conformance, said without walking -----

  /** Every declared field the document fills is filled in its declared form, at every depth. */
  ghost predicate Conforms(shape: Shape, doc: Node)
    decreases shape
  {
    forall i | 0 <= i < |shape.decls| :: ConformsCell(shape.decls[i].kind, Find(doc, shape.decls[i].name))
  }

  ghost predicate ConformsCell(kind: Kind, found: Option<Node>)
    decreases kind
  {
    found == None || found == Some(Null) ||
    var n := found.value;
    match kind
    case Leaf(form, _, options) => ConformsScalar(form, options, n)
    case Group(inner) => n.Obj? && Conforms(inner, n)
    case Leaves(_, _, _) => n.Arr? && forall i | 0 <= i < |n.items| :: ConformsItem(kind, n.items[i])
    case Objects(_) => n.Arr? && forall i | 0 <= i < |n.items| :: ConformsItem(kind, n.items[i])
  }

  ghost predicate ConformsItem(kind: Kind, n: Node)
    requires kind.Leaves? || kind.Objects?
    decreases kind, 0
  {
    match kind
    case Leaves(form, options, _) => ConformsScalar(form, options, n)
    case Objects(element) => n.Obj? && Conforms(element, n)
  }

  ghost predicate ConformsScalar(form: Form, options: seq<Scalar>, n: Node) {
    match form
    case Boolean => n.Bool?
    case Integer => n.Int?
    case Decimal => n.Int? || n.Real?
    case Text => n.Str? && (options == [] || S(n.s) in options)
  }

  /** The position `at` of the document is declared, filled, reached through right forms only, and
      filled wrongly itself. */
  ghost predicate Offends(shape: Shape, doc: Node, at: seq<Step>)
    decreases shape
  {
    at != [] && at[0].Key? &&
    exists i :: 0 <= i < |shape.decls| && shape.decls[i].name == at[0].key
                && OffendsCell(shape.decls[i].kind, Find(doc, at[0].key), at[1..])
  }

  ghost predicate OffendsCell(kind: Kind, found: Option<Node>, rest: seq<Step>)
    decreases kind
  {
    found.Some? && found != Some(Null) &&
    var n := found.value;
    match kind
    case Leaf(form, _, options) => rest == [] && !ConformsScalar(form, options, n)
    case Group(inner) => if !n.Obj? then rest == [] else Offends(inner, n, rest)
    case Leaves(_, _, _) =>
      if !n.Arr? then rest == []
      else rest != [] && rest[0].Index? && rest[0].i < |n.items| && OffendsItem(kind, n.items[rest[0].i], rest[1..])
    case Objects(_) =>
      if !n.Arr? then rest == []
      else rest != [] && rest[0].Index? && rest[0].i < |n.items| && OffendsItem(kind, n.items[rest[0].i], rest[1..])
  }

  ghost predicate OffendsItem(kind: Kind, n: Node, rest: seq<Step>)
    requires kind.Leaves? || kind.Objects?
    decreases kind, 0
  {
    match kind
    case Leaves(form, options, _) => rest == [] && !ConformsScalar(form, options, n)
    case Objects(element) => if !n.Obj? then rest == [] else Offends(element, n, rest)
  }

  // ----- The answer is empty exactly on conforming documents -----

  lemma {:induction false} MisfitsEmpty(shape: Shape, doc: Node, prefix: seq<Step>, n: nat)
    requires n <= |shape.decls|
    ensures MisfitsUpTo(shape, doc, prefix, n) == [] <==>
            forall i | 0 <= i < n :: ConformsCell(shape.decls[i].kind, Find(doc, shape.decls[i].name))
    decreases shape, n
  {
    hide FieldLines, ConformsCell, Find;
    if n > 0 {
      var d := shape.decls[n - 1];
      var here := FieldLines(d.kind, Find(doc, d.name), prefix + [Key(d.name)]);
      MisfitsEmpty(shape, doc, prefix, n - 1);
      FieldLinesEmpty(d.kind, Find(doc, d.name), prefix + [Key(d.name)]);
      assert |MisfitsUpTo(shape, doc, prefix, n)| == |MisfitsUpTo(shape, doc, prefix, n - 1)| + |here|;
    }
  }

  lemma {:induction false} FieldLinesEmpty(kind: Kind, found: Option<Node>, at: seq<Step>)
    ensures FieldLines(kind, found, at) == [] <==> ConformsCell(kind, found)
    decreases kind, 1
  {
    if Absent(found) { return; }
    var n := found.value;
    match kind
    case Leaf(_, _, _) =>
    case Group(inner) => if n.Obj? { MisfitsEmpty(inner, n, at, |inner.decls|); }
    case _ => if n.Arr? { ItemLinesEmpty(kind, n.items, at, |n.items|); }
  }

  lemma {:induction false} ItemLinesEmpty(kind: Kind, items: seq<Node>, at: seq<Step>, n: nat)
    requires (kind.Leaves? || kind.Objects?) && n <= |items|
    ensures ItemLines(kind, items, at, n) == [] <==> forall i | 0 <= i < n :: ConformsItem(kind, items[i])
    decreases kind, 0, n
  {
    if n > 0 {
      ItemLinesEmpty(kind, items, at, n - 1);
      OneItemEmpty(kind, items[n - 1], at + [Index(n - 1)]);
    }
  }

  lemma {:induction false} OneItemEmpty(kind: Kind, n: Node, at: seq<Step>)
    requires kind.Leaves? || kind.Objects?
    ensures OneItemLines(kind, n, at) == [] <==> ConformsItem(kind, n)
    decreases kind, 0, 0
  {
    if kind.Objects? && n.Obj? {
      MisfitsEmpty(kind.element, n, at, |kind.element.decls|);
    }
  }

  /** The check answers nothing exactly when the document is an object, or null, whose declared fields
      are all of their declared forms. */
  lemma NoMisfitsIffConforms(shape: Shape, stored: Node)
    ensures AllMisfits(shape, stored) == [] <==> (stored.Obj? || stored.Null?) && Conforms(shape, stored)
    ensures AllMisfits(shape, stored) ==
            if stored.Obj? || stored.Null? then Misfits(shape, stored, []) else [Line([], WrongForm(stored))]
  {
    MisfitsEmpty(shape, stored, [], |shape.decls|);
  }

  // ----- What each line says -----

  /** What is wrong at an offending address: a text where a text belongs is not listed, anything else is of the
      wrong form; either way the line names the value that stands there. */
  ghost predicate Tells(shape: Shape, doc: Node, at: seq<Step>, complaint: Complaint)
    decreases shape
  {
    at != [] && at[0].Key? &&
    exists i :: 0 <= i < |shape.decls| && shape.decls[i].name == at[0].key && Find(doc, at[0].key).Some?
                && TellsIn(shape.decls[i].kind, Find(doc, at[0].key).value, at[1..], complaint)
  }

  ghost predicate TellsIn(kind: Kind, n: Node, rest: seq<Step>, complaint: Complaint)
    decreases kind
  {
    match kind
    case Leaf(form, _, _) => rest == [] && TellsOf(form, n, complaint)
    case Group(inner) => if !n.Obj? then rest == [] && complaint == WrongForm(n) else Tells(inner, n, rest, complaint)
    case Leaves(form, _, _) =>
      if !n.Arr? then rest == [] && complaint == WrongForm(n)
      else |rest| == 1 && rest[0].Index? && rest[0].i < |n.items| && TellsOf(form, n.items[rest[0].i], complaint)
    case Objects(element) =>
      if !n.Arr? then rest == [] && complaint == WrongForm(n)
      else
        && rest != [] && rest[0].Index? && rest[0].i < |n.items|
        && var item := n.items[rest[0].i];
           if !item.Obj? then |rest| == 1 && complaint == WrongForm(item)
           else Tells(element, item, rest[1..], complaint)
  }

  ghost predicate TellsOf(form: Form, n: Node, complaint: Complaint) {
    complaint == if form == Text && n.Str? then NotListed(n) else WrongForm(n)
  }

  ghost predicate Told(shape: Shape, doc: Node, prefix: seq<Step>, line: Line) {
    prefix <= line.at && Tells(shape, doc, line.at[|prefix|..], line.complaint)
  }

  ghost predicate ToldIn(kind: Kind, n: Node, prefix: seq<Step>, line: Line) {
    prefix <= line.at && TellsIn(kind, n, line.at[|prefix|..], line.complaint)
  }

  lemma {:induction false} LinesTellUpTo(shape: Shape, doc: Node, prefix: seq<Step>, n: nat)
    requires n <= |shape.decls|
    ensures forall line | line in MisfitsUpTo(shape, doc, prefix, n) :: Told(shape, doc, prefix, line)
    decreases shape, n
  {
    hide FieldLines, TellsIn, Lookup;
    if n > 0 {
      var d := shape.decls[n - 1];
      var found, at := Find(doc, d.name), prefix + [Key(d.name)];
      LinesTellUpTo(shape, doc, prefix, n - 1);
      AbsentLines(d.kind, found, at);
      if !Absent(found) {
        FieldLinesTell(d.kind, found.value, at);
        forall line | line in FieldLines(d.kind, found, at) ensures Told(shape, doc, prefix, line) {
          assert ToldIn(d.kind, found.value, at, line);
          assert line.at[..|at|] == at && line.at[|prefix|] == at[|prefix|];
          assert line.at[|prefix|..][1..] == line.at[|at|..];
          assert line.at[..|prefix|] == prefix;
        }
      }
    }
  }

  lemma {:induction false} FieldLinesTell(kind: Kind, n: Node, at: seq<Step>)
    ensures forall line | line in FieldLines(kind, Some(n), at) :: ToldIn(kind, n, at, line)
    decreases kind, 1
  {
    hide Misfits, Tells;
    if n.Null? { return; }
    assert at[|at|..] == [];
    match kind
    case Leaf(_, _, _) =>
    case Group(inner) =>
      if n.Obj? {
        LinesTell(inner, n, at);
        forall line | line in Misfits(inner, n, at) ensures ToldIn(kind, n, at, line) {
          assert Told(inner, n, at, line);
        }
      }
    case _ =>
      if n.Arr? { ItemLinesTell(kind, n, at, |n.items|); }
  }

  lemma {:induction false} ItemLinesTell(kind: Kind, n: Node, at: seq<Step>, count: nat)
    requires (kind.Leaves? || kind.Objects?) && n.Arr? && count <= |n.items|
    ensures forall line | line in ItemLines(kind, n.items, at, count) :: ToldIn(kind, n, at, line)
    decreases kind, 0, count
  {
    hide Misfits, Tells;
    if count > 0 {
      ItemLinesTell(kind, n, at, count - 1);
      var item, here := n.items[count - 1], at + [Index(count - 1)];
      if kind.Objects? && item.Obj? {
        LinesTell(kind.element, item, here);
      }
      forall line | line in OneItemLines(kind, item, here) ensures ToldIn(kind, n, at, line) {
        assert kind.Objects? && item.Obj? ==> Told(kind.element, item, here, line);
        assert line.at[..|here|] == here && line.at[|at|] == here[|at|];
        assert line.at[|at|..][1..] == line.at[|here|..];
        assert line.at[..|at|] == at;
      }
    }
  }

  /** Each line names the value at its address, and what is wrong with it. */
  lemma {:induction false} LinesTell(shape: Shape, doc: Node, prefix: seq<Step>)
    ensures forall line | line in Misfits(shape, doc, prefix) :: Told(shape, doc, prefix, line)
    decreases shape, |shape.decls| + 1
  {
    LinesTellUpTo(shape, doc, prefix, |shape.decls|);
  }

  // ----- One line for each offending position -----

  /** Every line of `lines` stands at `prefix` followed by an address `Wrong` for `wrong`, every such
      address has its line, and no two lines stand at the same place. */
  ghost predicate Lists(lines: seq<Line>, prefix: seq<Step>, wrong: iset<seq<Step>>) {
    && (forall k | 0 <= k < |lines| :: prefix <= lines[k].at && lines[k].at[|prefix|..] in wrong)
    && (forall a | a in wrong :: Stands(lines, prefix + a))
    && (forall j, k | 0 <= j < k < |lines| :: lines[j].at != lines[k].at)
  }

  ghost predicate Stands(lines: seq<Line>, at: seq<Step>) {
    exists k :: 0 <= k < |lines| && lines[k].at == at
  }

  /** The addresses that take `step` first and then one of `inner`. */
  ghost function Under(step: Step, inner: iset<seq<Step>>): iset<seq<Step>> {
    iset at: seq<Step> | IsUnder(at, step, inner)
  }

  ghost predicate IsUnder(at: seq<Step>, step: Step, inner: iset<seq<Step>>) {
    at != [] && at[0] == step && at[1..] in inner
  }

  /** The same list seen from one step further up. */
  lemma ListsDeeper(lines: seq<Line>, prefix: seq<Step>, step: Step, inner: iset<seq<Step>>)
    requires Lists(lines, prefix + [step], inner)
    ensures Lists(lines, prefix, Under(step, inner))
  {
    forall k | 0 <= k < |lines| ensures prefix <= lines[k].at && lines[k].at[|prefix|..] in Under(step, inner) {
      assert prefix + [step] <= lines[k].at;
      var a := lines[k].at[|prefix|..];
      assert a[0] == step && a[1..] == lines[k].at[|prefix + [step]|..];
    }
    forall a | a in Under(step, inner) ensures Stands(lines, prefix + a) {
      assert Stands(lines, prefix + [step] + a[1..]);
      assert prefix + [step] + a[1..] == prefix + a;
    }
  }

  lemma ListsJoin(l: seq<Line>, r: seq<Line>, prefix: seq<Step>, a: iset<seq<Step>>, b: iset<seq<Step>>)
    requires Lists(l, prefix, a) && Lists(r, prefix, b) && a !! b
    ensures Lists(l + r, prefix, a + b)
  {
    forall x | x in a + b ensures Stands(l + r, prefix + x) {
      if x in a {
        var k :| 0 <= k < |l| && l[k].at == prefix + x;
        assert (l + r)[k] == l[k];
      } else {
        var k :| 0 <= k < |r| && r[k].at == prefix + x;
        assert (l + r)[|l| + k] == r[k];
      }
    }
    forall j, k | 0 <= j < |l| && 0 <= k < |r| ensures l[j].at != r[k].at {
      assert l[j].at[|prefix|..] in a && r[k].at[|prefix|..] in b;
    }
  }

  lemma ListsOne(line: Line)
    ensures Lists([line], line.at, iset{[]})
  {
    assert line.at[|line.at|..] == [];
    assert [line][0].at == line.at + [];
  }

  lemma ListsNone(prefix: seq<Step>)
    ensures Lists([], prefix, iset{})
  {}

  // The offending addresses of the parts of a document.

  ghost predicate OffendsField(d: Decl, doc: Node, at: seq<Step>) {
    at != [] && at[0] == Key(d.name) && OffendsCell(d.kind, Find(doc, d.name), at[1..])
  }

  ghost predicate OffendsUpTo(shape: Shape, doc: Node, n: nat, at: seq<Step>)
    requires n <= |shape.decls|
  {
    exists i :: 0 <= i < n && OffendsField(shape.decls[i], doc, at)
  }

  ghost predicate OffendsItemUpTo(kind: Kind, items: seq<Node>, n: nat, at: seq<Step>)
    requires (kind.Leaves? || kind.Objects?) && n <= |items|
  {
    at != [] && at[0].Index? && at[0].i < n && OffendsItem(kind, items[at[0].i], at[1..])
  }

  ghost function FieldOffenders(shape: Shape, doc: Node, n: nat): iset<seq<Step>>
    requires n <= |shape.decls|
  {
    iset at: seq<Step> | OffendsUpTo(shape, doc, n, at)
  }

  ghost function CellOffenders(kind: Kind, found: Option<Node>): iset<seq<Step>> {
    iset at: seq<Step> | OffendsCell(kind, found, at)
  }

  ghost function ItemOffenders(kind: Kind, items: seq<Node>, n: nat): iset<seq<Step>>
    requires (kind.Leaves? || kind.Objects?) && n <= |items|
  {
    iset at: seq<Step> | OffendsItemUpTo(kind, items, n, at)
  }

  ghost function OneItemOffenders(kind: Kind, n: Node): iset<seq<Step>>
    requires kind.Leaves? || kind.Objects?
  {
    iset at: seq<Step> | OffendsItem(kind, n, at)
  }

  lemma FieldsSplit(shape: Shape, doc: Node, n: nat)
    requires UniqueNames(shape) && 0 < n <= |shape.decls|
    ensures var d := shape.decls[n - 1];
            var here := Under(Key(d.name), CellOffenders(d.kind, Find(doc, d.name)));
            && FieldOffenders(shape, doc, n) == FieldOffenders(shape, doc, n - 1) + here
            && FieldOffenders(shape, doc, n - 1) !! here
  {
    hide OffendsCell;
    var d := shape.decls[n - 1];
    var here := Under(Key(d.name), CellOffenders(d.kind, Find(doc, d.name)));
    forall at: seq<Step> ensures at in here <==> OffendsField(d, doc, at) {
      assert at in here <==> IsUnder(at, Key(d.name), CellOffenders(d.kind, Find(doc, d.name)));
    }
    forall at: seq<Step>
      ensures OffendsUpTo(shape, doc, n, at) <==> OffendsUpTo(shape, doc, n - 1, at) || OffendsField(d, doc, at)
    {}
  }

  lemma ItemsSplit(kind: Kind, items: seq<Node>, n: nat)
    requires (kind.Leaves? || kind.Objects?) && 0 < n <= |items|
    ensures var here := Under(Index(n - 1), OneItemOffenders(kind, items[n - 1]));
            && ItemOffenders(kind, items, n) == ItemOffenders(kind, items, n - 1) + here
            && ItemOffenders(kind, items, n - 1) !! here
  {
    hide OffendsItem;
    var here := Under(Index(n - 1), OneItemOffenders(kind, items[n - 1]));
    forall at: seq<Step>
      ensures at in here <==> at != [] && at[0] == Index(n - 1) && OffendsItem(kind, items[n - 1], at[1..])
    {
      assert at in here <==> IsUnder(at, Index(n - 1), OneItemOffenders(kind, items[n - 1]));
    }
    forall at: seq<Step>
      ensures at in ItemOffenders(kind, items, n) <==> at in ItemOffenders(kind, items, n - 1) + here
    {
      assert at in ItemOffenders(kind, items, n) <==> OffendsItemUpTo(kind, items, n, at);
      assert at in ItemOffenders(kind, items, n - 1) <==> OffendsItemUpTo(kind, items, n - 1, at);
    }
  }

  lemma AllFields(shape: Shape, doc: Node, at: seq<Step>)
    ensures OffendsUpTo(shape, doc, |shape.decls|, at) <==> Offends(shape, doc, at)
  {
    hide OffendsCell;
    if Offends(shape, doc, at) {
      var i :| 0 <= i < |shape.decls| && shape.decls[i].name == at[0].key
               && OffendsCell(shape.decls[i].kind, Find(doc, at[0].key), at[1..]);
      assert OffendsField(shape.decls[i], doc, at);
    }
  }

  lemma ScalarListed(form: Form, options: seq<Scalar>, n: Node, at: seq<Step>)
    ensures Lists(ScalarLines(form, options, n, at), at, if ConformsScalar(form, options, n) then iset{} else iset{[]})
  {
    if ConformsScalar(form, options, n) {
      ListsNone(at);
    } else {
      ListsOne(ScalarLines(form, options, n, at)[0]);
    }
  }

  lemma {:induction false} MisfitsListed(shape: Shape, doc: Node, prefix: seq<Step>, n: nat)
    requires UniqueNames(shape) && n <= |shape.decls|
    ensures Lists(MisfitsUpTo(shape, doc, prefix, n), prefix, FieldOffenders(shape, doc, n))
    decreases shape, n
  {
    hide Lists, OffendsCell, FieldLines;
    if n == 0 {
      assert FieldOffenders(shape, doc, 0) == iset{};
      ListsNone(prefix);
    } else {
      var d := shape.decls[n - 1];
      var found := Find(doc, d.name);
      MisfitsListed(shape, doc, prefix, n - 1);
      assert UniqueNamesIn(d.kind);
      FieldListed(d.kind, found, prefix + [Key(d.name)]);
      ListsDeeper(FieldLines(d.kind, found, prefix + [Key(d.name)]), prefix, Key(d.name), CellOffenders(d.kind, found));
      FieldsSplit(shape, doc, n);
      ListsJoin(MisfitsUpTo(shape, doc, prefix, n - 1), FieldLines(d.kind, found, prefix + [Key(d.name)]), prefix,
                FieldOffenders(shape, doc, n - 1), Under(Key(d.name), CellOffenders(d.kind, found)));
    }
  }

  lemma {:induction false} FieldListed(kind: Kind, found: Option<Node>, at: seq<Step>)
    requires UniqueNamesIn(kind)
    ensures Lists(FieldLines(kind, found, at), at, CellOffenders(kind, found))
    decreases kind, 1
  {
    hide Lists;
    var wrong := CellOffenders(kind, found);
    if Absent(found) {
      assert wrong == iset{};
      ListsNone(at);
    } else if kind.Leaf? {
      ScalarListed(kind.form, kind.options, found.value, at);
      assert wrong == if ConformsScalar(kind.form, kind.options, found.value) then iset{} else iset{[]};
    } else if if kind.Group? then !found.value.Obj? else !found.value.Arr? {
      assert wrong == iset{[]};
      ListsOne(Line(at, WrongForm(found.value)));
    } else if kind.Group? {
      MisfitsListed(kind.inner, found.value, at, |kind.inner.decls|);
      forall x: seq<Step> ensures x in wrong <==> x in FieldOffenders(kind.inner, found.value, |kind.inner.decls|) {
        AllFields(kind.inner, found.value, x);
      }
      assert wrong == FieldOffenders(kind.inner, found.value, |kind.inner.decls|);
      assert FieldLines(kind, found, at) == Misfits(kind.inner, found.value, at);
    } else {
      var items := found.value.items;
      ItemsListed(kind, items, at, |items|);
      forall x: seq<Step> ensures x in wrong <==> x in ItemOffenders(kind, items, |items|) {
        assert x in ItemOffenders(kind, items, |items|) <==> OffendsItemUpTo(kind, items, |items|, x);
      }
      assert wrong == ItemOffenders(kind, items, |items|);
      assert FieldLines(kind, found, at) == ItemLines(kind, items, at, |items|);
    }
  }

  lemma {:induction false} ItemsListed(kind: Kind, items: seq<Node>, at: seq<Step>, n: nat)
    requires (kind.Leaves? || kind.Objects?) && n <= |items| && UniqueNamesIn(kind)
    ensures Lists(ItemLines(kind, items, at, n), at, ItemOffenders(kind, items, n))
    decreases kind, 0, n
  {
    hide Lists, OffendsItem, OneItemLines;
    if n == 0 {
      assert ItemOffenders(kind, items, 0) == iset{};
      ListsNone(at);
    } else {
      var here := at + [Index(n - 1)];
      ItemsListed(kind, items, at, n - 1);
      OneItemListed(kind, items[n - 1], here);
      ListsDeeper(OneItemLines(kind, items[n - 1], here), at, Index(n - 1), OneItemOffenders(kind, items[n - 1]));
      ItemsSplit(kind, items, n);
      ListsJoin(ItemLines(kind, items, at, n - 1), OneItemLines(kind, items[n - 1], here), at,
                ItemOffenders(kind, items, n - 1), Under(Index(n - 1), OneItemOffenders(kind, items[n - 1])));
    }
  }

  lemma {:induction false} OneItemListed(kind: Kind, n: Node, at: seq<Step>)
    requires (kind.Leaves? || kind.Objects?) && UniqueNamesIn(kind)
    ensures Lists(OneItemLines(kind, n, at), at, OneItemOffenders(kind, n))
    decreases kind, 0, 0
  {
    hide Lists;
    var wrong := OneItemOffenders(kind, n);
    if kind.Leaves? {
      ScalarListed(kind.form, kind.options, n, at);
      assert wrong == if ConformsScalar(kind.form, kind.options, n) then iset{} else iset{[]};
    } else if n.Obj? {
      MisfitsListed(kind.element, n, at, |kind.element.decls|);
      forall x: seq<Step> ensures x in wrong <==> x in FieldOffenders(kind.element, n, |kind.element.decls|) {
        AllFields(kind.element, n, x);
      }
      assert wrong == FieldOffenders(kind.element, n, |kind.element.decls|);
      assert OneItemLines(kind, n, at) == Misfits(kind.element, n, at);
    } else {
      assert wrong == iset{[]};
      ListsOne(Line(at, WrongForm(n)));
    }
  }

  /** For sibling names unique: the lines of the check stand at exactly the offending positions, one
      line for each. */
  lemma OneLinePerOffender(shape: Shape, doc: Node)
    requires UniqueNames(shape)
    ensures var lines := Misfits(shape, doc, []);
            && (forall at :: Stands(lines, at) <==> Offends(shape, doc, at))
            && (forall j, k | 0 <= j < k < |lines| :: lines[j].at != lines[k].at)
  {
    hide Offends, OffendsUpTo, MisfitsUpTo;
    var lines := Misfits(shape, doc, []);
    var wrong := FieldOffenders(shape, doc, |shape.decls|);
    MisfitsListed(shape, doc, [], |shape.decls|);
    forall at: seq<Step> ensures Stands(lines, at) <==> Offends(shape, doc, at) {
      AllFields(shape, doc, at);
      assert [] + at == at;
      if Stands(lines, at) {
        var k :| 0 <= k < |lines| && lines[k].at == at;
        assert lines[k].at[0..] == at;
      }
    }
  }
}
