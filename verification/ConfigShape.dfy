/** A module's declared config: the declaration, the values behind it, and how a host fills it from a
    document and writes it back.

    An entry of the source is a declaration with a pointer to its value; here the declarations of one
    config form a Shape and the values behind them a Values of the same layout. Options are kept as
    the values they print, so that comparing canonical strings is comparing values. */
module ConfigShape {
  import opened Common
  import opened ConfigNode

  datatype Form = Boolean | Integer | Decimal | Text

  datatype Scalar = B(b: bool) | I(i: int) | R(r: real) | S(s: string)

  /** A leaf without a fallback is required. The zero of an array of texts is what its fresh elements print
      as: for an enumeration whose table lists the zero its name, for any other, and for plain texts, the
      empty text. The other forms have zeros of their own. */
  datatype Kind =
    | Leaf(form: Form, fallback: Option<Scalar>, options: seq<Scalar>)
    | Group(inner: Shape)
    | Leaves(form: Form, options: seq<Scalar>, zero: string)
    | Objects(element: Shape)

  datatype Decl = Decl(name: string, kind: Kind)

  datatype Shape = Shape(decls: seq<Decl>)

  datatype Cell =
    | LeafCell(value: Scalar, written: bool)
    | GroupCell(inner: Values)
    | LeavesCell(items: seq<Scalar>, written: bool)
    | ObjectsCell(elements: seq<Values>, written: bool)

  datatype Values = Values(cells: seq<Cell>)

  // ----- Scalars -----

  function FormOf(v: Scalar): Form {
    match v case B(_) => Boolean case I(_) => Integer case R(_) => Decimal case S(_) => Text
  }

  function Zero(form: Form): (v: Scalar)
    ensures FormOf(v) == form
  {
    match form case Boolean => B(false) case Integer => I(0) case Decimal => R(0.0) case Text => S("")
  }

  /** What a fresh element of an array starts at. */
  function FreshItem(form: Form, zero: string): (v: Scalar)
    ensures FormOf(v) == form
  {
    if form == Text then S(zero) else Zero(form)
  }

  function NodeOf(v: Scalar): Node {
    match v case B(b) => Bool(b) case I(i) => Int(i) case R(r) => Real(r) case S(s) => Str(s)
  }

  /** Reads one node as a scalar of the form, widening a whole number into a real and never back. */
  function Read(form: Form, n: Node): (r: Option<Scalar>)
    ensures r.Some? ==> FormOf(r.value) == form
  {
    match (form, n)
    case (Boolean, Bool(b)) => Some(B(b))
    case (Integer, Int(i)) => Some(I(i))
    case (Decimal, Int(i)) => Some(R(i as real))
    case (Decimal, Real(r)) => Some(R(r))
    case (Text, Str(s)) => Some(S(s))
    case _ => None
  }

  /** The node says this value: the very one, or for a real a whole number equal to it. */
  ghost predicate Spells(n: Node, v: Scalar) {
    match v
    case B(b) => n == Bool(b)
    case I(i) => n == Int(i)
    case R(r) => n == Real(r) || (n.Int? && r.Floor == n.i && r - r.Floor as real == 0.0)
    case S(s) => n == Str(s)
  }

  /** A field reads a node exactly when the node says a value of its form, and then it reads that value. What
      is refused: everything but truth values, whole numbers, numbers and texts, each in its own form. */
  lemma ReadSpells(form: Form, n: Node, v: Scalar)
    ensures Read(form, n) == Some(v) <==> FormOf(v) == form && Spells(n, v)
    ensures Read(form, n).Some? <==>
            || (form == Boolean && n.Bool?) || (form == Integer && n.Int?)
            || (form == Decimal && (n.Int? || n.Real?)) || (form == Text && n.Str?)
    ensures FormOf(v) == if v.B? then Boolean else if v.I? then Integer else if v.R? then Decimal else Text
  {
    if n.Int? {
      assert (n.i as real).Floor == n.i;
    }
  }

  /** A value is written as a node that says it. */
  lemma WrittenSpells(v: Scalar)
    ensures Spells(NodeOf(v), v)
  {}

  predicate Allows(options: seq<Scalar>, v: Scalar) {
    options == [] || v in options
  }

  // ----- Layout -----

  ghost predicate Fits(shape: Shape, vals: Values) {
    && |vals.cells| == |shape.decls|
    && forall i | 0 <= i < |shape.decls| :: FitsCell(shape.decls[i].kind, vals.cells[i])
  }

  ghost predicate FitsCell(kind: Kind, cell: Cell) {
    match kind
    case Leaf(_, _, _) => cell.LeafCell?
    case Group(inner) => cell.GroupCell? && Fits(inner, cell.inner)
    case Leaves(_, _, _) => cell.LeavesCell?
    case Objects(element) =>
      cell.ObjectsCell? && forall i | 0 <= i < |cell.elements| :: Fits(element, cell.elements[i])
  }

  ghost predicate UniqueNames(shape: Shape) {
    && (forall i, j | 0 <= i < j < |shape.decls| :: shape.decls[i].name != shape.decls[j].name)
    && forall i | 0 <= i < |shape.decls| :: UniqueNamesIn(shape.decls[i].kind)
  }

  ghost predicate UniqueNamesIn(kind: Kind) {
    match kind
    case Group(inner) => UniqueNames(inner)
    case Objects(element) => UniqueNames(element)
    case _ => true
  }

  /** The first declaration of that name. */
  function Declared(decls: seq<Decl>, name: string): (r: Option<nat>)
    ensures r.Some? ==> r.value < |decls| && decls[r.value].name == name
    ensures r.None? ==> forall i | 0 <= i < |decls| :: decls[i].name != name
    ensures r.Some? ==> forall i | 0 <= i < r.value :: decls[i].name != name
  {
    if decls == [] then None
    else if decls[0].name == name then Some(0)
    else
      var r := Declared(decls[1..], name);
      assert forall i | 0 < i < |decls| :: decls[i] == decls[1..][i - 1];
      if r.Some? then Some(r.value + 1) else None
  }

  function Initial(form: Form, fallback: Option<Scalar>): Scalar {
    if fallback.Some? then fallback.value else Zero(form)
  }

  /** What make_config() answers: every field as declared, every array empty. */
  function Fresh(shape: Shape): (vals: Values)
    ensures Fits(shape, vals)
  {
    Values(seq(|shape.decls|, i requires 0 <= i < |shape.decls| => FreshCell(shape.decls[i].kind)))
  }

  function FreshCell(kind: Kind): (cell: Cell)
    ensures FitsCell(kind, cell)
  {
    match kind
    case Leaf(form, fallback, _) => LeafCell(Initial(form, fallback), false)
    case Group(inner) => GroupCell(Fresh(inner))
    case Leaves(_, _, _) => LeavesCell([], false)
    case Objects(_) => ObjectsCell([], false)
  }

  /** A field starts at its default, a required one at false, 0, 0.0 or the empty text, and an array without
      elements; nothing counts as written. */
  lemma FreshHolds(shape: Shape, i: nat)
    requires i < |shape.decls|
    ensures var kind, cell := shape.decls[i].kind, Fresh(shape).cells[i];
            match kind
            case Leaf(form, fallback, _) =>
              && !cell.written
              && cell.value ==
                 (if fallback.Some? then fallback.value
                  else
                    match form case Boolean => B(false) case Integer => I(0) case Decimal => R(0.0) case Text => S(""))
            case Group(inner) => cell.inner == Fresh(inner)
            case Leaves(_, _, _) => !cell.written && cell.items == []
            case Objects(_) => !cell.written && cell.elements == []
  {}

  // ----- Filling from a document -----

  /** A null value is as good as none. */
  predicate Absent(found: Option<Node>) {
    found.None? || found.value.Null?
  }

  function Load(shape: Shape, vals: Values, doc: Node): (r: Values)
    requires Fits(shape, vals)
    ensures Fits(shape, r)
    decreases shape, 0
  {
    Values(seq(|shape.decls|, i requires 0 <= i < |shape.decls| =>
      LoadCell(shape.decls[i].kind, vals.cells[i], Find(doc, shape.decls[i].name))))
  }

  function LoadCell(kind: Kind, cell: Cell, found: Option<Node>): (r: Cell)
    requires FitsCell(kind, cell)
    ensures FitsCell(kind, r)
    decreases kind, 0
  {
    if Absent(found) then cell else
    var n := found.value;
    match kind
    case Leaf(form, _, options) =>
      var v := Read(form, n);
      if v.Some? && Allows(options, v.value) then LeafCell(v.value, true) else cell
    case Group(inner) => if n.Obj? then GroupCell(Load(inner, cell.inner, n)) else cell
    case Leaves(form, options, zero) =>
      if n.Arr? then
        LeavesCell(seq(|n.items|, i requires 0 <= i < |n.items| =>
                     var held := if i < |cell.items| then cell.items[i] else FreshItem(form, zero);
                     LoadItem(form, options, held, n.items[i])), true)
      else cell
    case Objects(element) =>
      if n.Arr? then
        ObjectsCell(seq(|n.items|, i requires 0 <= i < |n.items| =>
                      var held := if i < |cell.elements| then cell.elements[i] else Fresh(element);
                      LoadElement(element, held, n.items[i])), true)
      else cell
  }

  /** One element of an array of scalars. Only a text is checked against the declared set. */
  function LoadItem(form: Form, options: seq<Scalar>, held: Scalar, n: Node): Scalar {
    var v := Read(form, n);
    if v.Some? && (form == Text ==> Allows(options, v.value)) then v.value else held
  }

  function LoadElement(element: Shape, held: Values, n: Node): (r: Values)
    requires Fits(element, held)
    ensures Fits(element, r)
    decreases element, 1
  {
    if n.Obj? then Load(element, held, n) else held
  }

  /** Some scalar field other than a text is filled with a value of its form outside its declared set. */
  predicate HasOutsider(shape: Shape, doc: Node)
    decreases shape
  {
    exists i :: 0 <= i < |shape.decls| && OutsiderIn(shape.decls[i].kind, Find(doc, shape.decls[i].name))
  }

  predicate OutsiderIn(kind: Kind, found: Option<Node>)
    decreases kind
  {
    !Absent(found) &&
    var n := found.value;
    match kind
    case Leaf(form, _, options) =>
      form != Text && Read(form, n).Some? && !Allows(options, Read(form, n).value)
    case Group(inner) => n.Obj? && HasOutsider(inner, n)
    case Leaves(_, _, _) => false
    case Objects(element) =>
      n.Arr? && exists i :: 0 <= i < |n.items| && n.items[i].Obj? && HasOutsider(element, n.items[i])
  }

  // ----- Writing back -----

  /** What of the values is worth writing down, in declaration order. */
  function Save(shape: Shape, vals: Values): Node
    requires Fits(shape, vals)
    decreases shape, |shape.decls| + 1
  {
    SaveUpTo(shape, vals, |shape.decls|)
  }

  function SaveUpTo(shape: Shape, vals: Values, n: nat): (r: Node)
    requires Fits(shape, vals) && n <= |shape.decls|
    ensures r.Obj?
    decreases shape, n
  {
    if n == 0 then EMPTY_OBJECT
    else
      var saved := SaveCell(shape.decls[n - 1].kind, vals.cells[n - 1]);
      var before := SaveUpTo(shape, vals, n - 1);
      if saved.Some? then Put(before, shape.decls[n - 1].name, saved.value) else before
  }

  /** A scalar goes out when written and required or off its default, a group when it has something to
      say, an array when sized on purpose - with every element, so that positions stand. */
  function SaveCell(kind: Kind, cell: Cell): Option<Node>
    requires FitsCell(kind, cell)
    decreases kind
  {
    match kind
    case Leaf(_, fallback, _) =>
      if cell.written && (fallback.None? || cell.value != fallback.value) then Some(NodeOf(cell.value)) else None
    case Group(inner) =>
      var nested := Save(inner, cell.inner);
      if Entries(nested) == [] then None else Some(nested)
    case Leaves(_, _, _) =>
      if cell.written
      then Some(Arr(seq(|cell.items|, i requires 0 <= i < |cell.items| => NodeOf(cell.items[i])))) else None
    case Objects(element) =>
      if cell.written
      then Some(Arr(seq(|cell.elements|, i requires 0 <= i < |cell.elements| => Save(element, cell.elements[i]))))
      else None
  }
}
