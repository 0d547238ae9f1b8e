/** Values guarded by a set of options: a module's property and a field of its config, each written
    through a typed door and through a text door. */
module Options {
  import opened Common
  import opened Decimal

  /** Conversion of a value to text and back; a text may not parse. */
  datatype Codec<!T> = Codec(print_: T -> string, parse: string -> Option<T>)

  /** Parsing undoes printing. */
  ghost predicate Inverts<T(!new)>(codec: Codec<T>) {
    forall v :: codec.parse(codec.print_(v)) == Some(v)
  }

  /** The option list, as canonical texts; an empty one allows everything. */
  predicate Listed(options: seq<string>, text: string) {
    options == [] || text in options
  }

  datatype Refusal = NotAllowed | DoesNotParse

  // ----- Property -----

  datatype Declared<!T> = Declared(codec: Codec<T>, options: seq<string>, fallback: T)

  datatype PropertyState<T> = PropertyState(value: T, changed: bool)

  datatype Op<T> = Write(v: T) | WriteText(text: string) | Take | Reset

  predicate Allowed<T>(d: Declared<T>, v: T) {
    Listed(d.options, d.codec.print_(v))
  }

  /** What a write would store, if it goes through. A text is parsed first and the value checked by its
      canonical text, so another spelling of an allowed value is accepted. */
  function Incoming<T>(d: Declared<T>, op: Op<T>): Option<T> {
    match op
    case Write(v) => if Allowed(d, v) then Some(v) else None
    case WriteText(text) =>
      var parsed := d.codec.parse(text);
      if parsed.Some? && Allowed(d, parsed.value) then parsed else None
    case Take => None
    case Reset => Some(d.fallback)
  }

  function Apply<T>(d: Declared<T>, s: PropertyState<T>, op: Op<T>): PropertyState<T> {
    if op.Take? then s.(changed := false)
    else if Incoming(d, op).Some? then PropertyState(Incoming(d, op).value, true)
    else s
  }

  function Run<T>(d: Declared<T>, ops: seq<Op<T>>): PropertyState<T> {
    if ops == [] then PropertyState(d.fallback, false)
    else Apply(d, Run(d, ops[..|ops| - 1]), ops[|ops| - 1])
  }

  /** The last operation that stored something, counting from the end; none if nothing did. */
  function LastStored<T>(d: Declared<T>, ops: seq<Op<T>>): (r: Option<nat>)
    ensures r.Some? ==> r.value < |ops| && !ops[r.value].Take? && Incoming(d, ops[r.value]).Some?
    ensures r.Some? ==> forall k | r.value < k < |ops| :: ops[k].Take? || Incoming(d, ops[k]).None?
    ensures r.None? ==> forall k | 0 <= k < |ops| :: ops[k].Take? || Incoming(d, ops[k]).None?
  {
    if ops == [] then None
    else
      var n := |ops| - 1;
      if !ops[n].Take? && Incoming(d, ops[n]).Some? then Some(n) else LastStored(d, ops[..n])
  }

  /** After any run of writes, text writes, takes and resets, refused ones among them: the property holds
      the value the last accepted one stored, that value is an allowed one, and the flag is up exactly
      when something was stored after the last take. */
  lemma {:induction false} PropertyOverRuns<T>(d: Declared<T>, ops: seq<Op<T>>)
    requires Allowed(d, d.fallback)
    ensures var s := Run(d, ops);
            var last := LastStored(d, ops);
            && s.value == (if last.Some? then Incoming(d, ops[last.value]).value else d.fallback)
            && Allowed(d, s.value)
            && (s.changed <==> last.Some? && forall k | last.value < k < |ops| :: !ops[k].Take?)
  {
    if ops != [] {
      var n := |ops| - 1;
      PropertyOverRuns(d, ops[..n]);
    }
  }

  class Property<T> {
    const declared: Declared<T>
    var value: T
    var changed: bool

    ghost function State(): PropertyState<T>
      reads this
    {
      PropertyState(value, changed)
    }

    ghost predicate Valid()
      reads this
    {
      Allowed(declared, declared.fallback) && Allowed(declared, value)
    }

    constructor (declared: Declared<T>)
      requires Allowed(declared, declared.fallback)
      ensures Valid() && this.declared == declared && State() == Run(declared, [])
    {
      this.declared := declared;
      value, changed := declared.fallback, false;
    }

    /** A default outside the set is refused. */
    static method Build(declared: Declared<T>) returns (r: Result<Property<T>, Refusal>)
      ensures r.Ok? <==> declared.options == [] || declared.codec.print_(declared.fallback) in declared.options
      ensures r.Ok? ==> fresh(r.value) && r.value.declared == declared && r.value.State() == Run(declared, [])
    {
      if !Allowed(declared, declared.fallback) {
        return Err(NotAllowed);
      }
      var p := new Property(declared);
      r := Ok(p);
    }

    method Assign(v: T) returns (r: Result<(), Refusal>)
      requires Valid()
      modifies this
      ensures Valid() && State() == Apply(declared, old(State()), Write(v))
      ensures r.Ok? <==> declared.options == [] || declared.codec.print_(v) in declared.options
      ensures r.Err? ==> r.error == NotAllowed
      ensures if r.Ok? then value == v && changed else value == old(value) && changed == old(changed)
    {
      if !Allowed(declared, v) {
        return Err(NotAllowed);
      }
      value := v;
      changed := true;
      r := Ok(());
    }

    method FromString(text: string) returns (r: Result<(), Refusal>)
      requires Valid()
      modifies this
      ensures Valid() && State() == Apply(declared, old(State()), WriteText(text))
      ensures r.Ok? <==> Incoming(declared, WriteText(text)).Some?
      ensures r == Err(DoesNotParse) <==> declared.codec.parse(text).None?
      ensures r == Err(NotAllowed) <==>
                && declared.codec.parse(text).Some? && declared.options != []
                && declared.codec.print_(declared.codec.parse(text).value) !in declared.options
      ensures if r.Ok? then Some(value) == declared.codec.parse(text) && changed
              else value == old(value) && changed == old(changed)
    {
      var parsed := declared.codec.parse(text);
      if parsed.None? {
        return Err(DoesNotParse);
      }
      if !Allowed(declared, parsed.value) {
        return Err(NotAllowed);
      }
      value := parsed.value;
      changed := true;
      r := Ok(());
    }

    method TakeChange() returns (r: Option<T>)
      requires Valid()
      modifies this`changed
      ensures Valid() && State() == Apply(declared, old(State()), Take)
      ensures r == if old(changed) then Some(old(value)) else None
      ensures value == old(value) && !changed
    {
      if !changed {
        return None;
      }
      changed := false;
      r := Some(value);
    }

    method ResetValue()
      requires Valid()
      modifies this
      ensures Valid() && State() == Apply(declared, old(State()), Reset)
      ensures value == declared.fallback && changed
    {
      value := declared.fallback;
      changed := true;
    }
  }

  // ----- Field of a config -----

  datatype FieldState<T> = FieldState(value: T, written: bool)

  /** The typed door: the value is checked by its canonical text; refusing it throws. */
  function SetField<T>(d: Declared<T>, s: FieldState<T>, v: T): Option<FieldState<T>> {
    if Listed(d.options, d.codec.print_(v)) then Some(FieldState(v, true)) else None
  }

  /** The text door: the text itself has to be listed, then to parse; refusing it answers false. */
  function SetFieldText<T>(d: Declared<T>, s: FieldState<T>, text: string): Option<FieldState<T>> {
    if !Listed(d.options, text) || d.codec.parse(text).None? then None
    else Some(FieldState(d.codec.parse(text).value, true))
  }

  /** Writing a value and writing the text it prints are accepted alike and leave the same state. */
  lemma DoorsAgree<T(!new)>(d: Declared<T>, s: FieldState<T>, v: T)
    requires Inverts(d.codec)
    ensures SetFieldText(d, s, d.codec.print_(v)) == SetField(d, s, v)
  {}

  datatype FieldOp<T> = SetValue(v: T) | SetText(text: string)

  function ApplyField<T>(d: Declared<T>, s: FieldState<T>, op: FieldOp<T>): FieldState<T> {
    var next := match op case SetValue(v) => SetField(d, s, v) case SetText(text) => SetFieldText(d, s, text);
    if next.Some? then next.value else s
  }

  function RunField<T>(d: Declared<T>, ops: seq<FieldOp<T>>): FieldState<T> {
    if ops == [] then FieldState(d.fallback, false)
    else ApplyField(d, RunField(d, ops[..|ops| - 1]), ops[|ops| - 1])
  }

  /** The same run with every typed write made through the text door instead. */
  function AsTexts<T>(d: Declared<T>, ops: seq<FieldOp<T>>): (r: seq<FieldOp<T>>)
    ensures |r| == |ops|
  {
    seq(|ops|, i requires 0 <= i < |ops| => if ops[i].SetValue? then SetText(d.codec.print_(ops[i].v)) else ops[i])
  }

  /** Each listed option that parses is spelled as it prints, as those of a typed declaration are. */
  ghost predicate CanonicalOptions<T>(d: Declared<T>) {
    forall o | o in d.options && d.codec.parse(o).Some? :: d.codec.print_(d.codec.parse(o).value) == o
  }

  /** Over any run through both doors: going through the text door throughout makes no difference, and
      with canonical options a written field holds an allowed value. */
  lemma {:induction false} FieldOverRuns<T(!new)>(d: Declared<T>, ops: seq<FieldOp<T>>)
    requires Inverts(d.codec)
    ensures RunField(d, AsTexts(d, ops)) == RunField(d, ops)
    ensures CanonicalOptions(d) && RunField(d, ops).written ==> Allowed(d, RunField(d, ops).value)
  {
    if ops != [] {
      var n := |ops| - 1;
      FieldOverRuns(d, ops[..n]);
      assert AsTexts(d, ops)[..n] == AsTexts(d, ops[..n]);
      if ops[n].SetValue? {
        DoorsAgree(d, RunField(d, ops[..n]), ops[n].v);
      }
    }
  }

  /** The field and the property, given the same text, store the same value or both refuse it. */
  predicate TextDoorsAgree<T(==)>(d: Declared<T>, s: FieldState<T>, text: string) {
    var field := SetFieldText(d, s, text);
    Incoming(d, WriteText(text)) == if field.Some? then Some(field.value.value) else None
  }

  /** They part on exactly two kinds of text that parse: one that is not listed though its value's print is,
      which the property alone takes, and one that is listed though its value's print is not, which the
      field alone takes. With canonical options the second does not exist, and they agree exactly on texts
      that parse to no allowed value or are the print of their value. */
  lemma TextDoorsPart<T>(d: Declared<T>, s: FieldState<T>, text: string)
    ensures TextDoorsAgree(d, s, text) <==>
            d.codec.parse(text).Some? ==> (Listed(d.options, text) <==> Allowed(d, d.codec.parse(text).value))
    ensures CanonicalOptions(d) && d.options != [] ==>
              (TextDoorsAgree(d, s, text) <==>
               d.codec.parse(text).Some? && Allowed(d, d.codec.parse(text).value) ==>
                 d.codec.print_(d.codec.parse(text).value) == text)
    ensures d.options == [] ==> TextDoorsAgree(d, s, text)
  {}

  /** As long as they agree on every text given, they hold the same value throughout. */
  lemma {:induction false} TextRunsAgree<T>(d: Declared<T>, texts: seq<string>)
    requires forall k, s | 0 <= k < |texts| :: TextDoorsAgree(d, s, texts[k])
    ensures Run(d, Written(texts)).value == RunField(d, GivenToField(texts)).value
  {
    if texts != [] {
      var n := |texts| - 1;
      TextRunsAgree(d, texts[..n]);
      assert Written<T>(texts)[..n] == Written(texts[..n]);
      assert GivenToField<T>(texts)[..n] == GivenToField(texts[..n]);
      assert TextDoorsAgree(d, RunField(d, GivenToField(texts[..n])), texts[n]);
    }
  }

  function Written<T>(texts: seq<string>): seq<Op<T>> {
    seq(|texts|, i requires 0 <= i < |texts| => WriteText(texts[i]))
  }

  function GivenToField<T>(texts: seq<string>): seq<FieldOp<T>> {
    seq(|texts|, i requires 0 <= i < |texts| => SetText(texts[i]))
  }

  /** Natural numbers as the number codecs read and print them: leading zeros are taken and never printed. */
  function Naturals(): Codec<nat> {
    Codec(Digits, s => if s != "" && AllDigits(s) then Some(Value(s)) else None)
  }

  lemma NaturalsInvert()
    ensures Inverts(Naturals())
  {
    var codec := Naturals();
    forall v: nat ensures codec.parse(codec.print_(v)) == Some(v) {
      ValueOfDigits(v);
    }
  }

  /** One such text: where only 1 is allowed, "01" is taken by the property and refused by the field. */
  lemma OtherSpelling() returns (d: Declared<nat>)
    ensures Inverts(d.codec) && CanonicalOptions(d) && Allowed(d, d.fallback)
    ensures Incoming(d, WriteText("01")) == Some(d.fallback)
    ensures forall s :: SetFieldText(d, s, "01").None?
  {
    hide Value, Digits, Inverts;
    d := Declared(Naturals(), ["1"], 1);
    NaturalsInvert();
    LeadingZeroReads();
    assert Value("1") == 1 by {
      ValueOfDigits(1);
    }
  }

  class ConfigField<T(!new)> {
    const declared: Declared<T>
    const required: bool
    var value: T
    var written: bool

    ghost function State(): FieldState<T>
      reads this
    {
      FieldState(value, written)
    }

    /** A default outside the set is refused; a required field starts at the zero of its form. */
    static method Build(declared: Declared<T>, required: bool) returns (r: Result<ConfigField<T>, Refusal>)
      ensures r.Ok? <==>
                required || declared.options == [] || declared.codec.print_(declared.fallback) in declared.options
      ensures r.Ok? ==> fresh(r.value) && r.value.declared == declared && r.value.required == required
                        && r.value.State() == RunField(declared, [])
    {
      if !required && !Allowed(declared, declared.fallback) {
        return Err(NotAllowed);
      }
      var field := new ConfigField(declared, required);
      r := Ok(field);
    }

    constructor (declared: Declared<T>, required: bool)
      ensures this.declared == declared && this.required == required && State() == RunField(declared, [])
    {
      this.declared, this.required := declared, required;
      value, written := declared.fallback, false;
    }

    method Assign(v: T) returns (r: Result<(), Refusal>)
      modifies this
      ensures State() == ApplyField(declared, old(State()), SetValue(v))
      ensures r.Ok? <==> declared.options == [] || declared.codec.print_(v) in declared.options
      ensures r.Err? ==> r.error == NotAllowed
      ensures if r.Ok? then value == v && written else value == old(value) && written == old(written)
    {
      if !Listed(declared.options, declared.codec.print_(v)) {
        return Err(NotAllowed);
      }
      value := v;
      written := true;
      r := Ok(());
    }

    method FromString(text: string) returns (ok: bool)
      modifies this
      ensures State() == ApplyField(declared, old(State()), SetText(text))
      ensures ok <==> (declared.options == [] || text in declared.options) && declared.codec.parse(text).Some?
      ensures if ok then Some(value) == declared.codec.parse(text) && written
              else value == old(value) && written == old(written)
    {
      if !Listed(declared.options, text) {
        return false;
      }
      var parsed := declared.codec.parse(text);
      if parsed.None? {
        return false;
      }
      value := parsed.value;
      written := true;
      return true;
    }

    /** Compared as texts; where parsing undoes printing that is comparing values. */
    method IsDefault() returns (r: bool)
      ensures r <==> !required && declared.codec.print_(value) == declared.codec.print_(declared.fallback)
      ensures Inverts(declared.codec) ==> (r <==> !required && value == declared.fallback)
    {
      r := !required && declared.codec.print_(value) == declared.codec.print_(declared.fallback);
      if Inverts(declared.codec) {
        PrintInjective(declared.codec, value, declared.fallback);
      }
    }
  }

  /** Where parsing undoes printing, two values print alike only if they are the same. */
  lemma PrintInjective<T(!new)>(codec: Codec<T>, a: T, b: T)
    requires Inverts(codec)
    ensures codec.print_(a) == codec.print_(b) <==> a == b
  {
    assert codec.parse(codec.print_(a)) == Some(a) && codec.parse(codec.print_(b)) == Some(b);
  }
}
