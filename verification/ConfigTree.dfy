/** The editor object: the values on screen, the document they came from, and the edits that write one
    back into the other. */
module ConfigTree {
  import opened Common
  import opened ConfigNode
  import opened ConfigShape
  import opened ConfigMisfits
  import opened ConfigRoundTrip
  import opened ConfigCarry
  import opened ConfigCarryTheorems
  import opened ConfigAddress
  import opened ConfigRows
  import opened ConfigFill
  import opened ConfigFillTheorems
  import opened ConfigEditor
  import opened ConfigErase
  import opened ConfigSlots
  import opened ConfigUnknown

  // ----- Unique keys are kept -----

  lemma PutUnique(n: Node, key: string, value: Node)
    requires n.Obj? && UniqueKeys(n) && UniqueKeys(value)
    ensures UniqueKeys(Put(n, key, value))
  {
    PutKeys(n.entries, key, value);
    var now := Put(n, key, value);
    forall i | 0 <= i < |now.entries| ensures UniqueKeys(now.entries[i].value) {
      if now.entries[i].key == key {
        LookupPut(n.entries, key, value, key);
        LookupAt(now.entries, i);
      }
    }
  }

  lemma {:induction false} SaveUnique(shape: Shape, vals: Values, n: nat)
    requires Fits(shape, vals) && n <= |shape.decls|
    ensures UniqueKeys(SaveUpTo(shape, vals, n))
    decreases shape, n
  {
    if n > 0 {
      SaveUnique(shape, vals, n - 1);
      SaveCellUnique(shape.decls[n - 1].kind, vals.cells[n - 1]);
      var saved := SaveCell(shape.decls[n - 1].kind, vals.cells[n - 1]);
      if saved.Some? {
        PutUnique(SaveUpTo(shape, vals, n - 1), shape.decls[n - 1].name, saved.value);
      }
    }
  }

  lemma {:induction false} SaveCellUnique(kind: Kind, cell: Cell)
    requires FitsCell(kind, cell)
    ensures SaveCell(kind, cell).Some? ==> UniqueKeys(SaveCell(kind, cell).value)
    decreases kind, 0
  {
    match kind
    case Leaf(_, _, _) =>
    case Group(inner) => SaveUnique(inner, cell.inner, |inner.decls|);
    case Leaves(_, _, _) =>
    case Objects(element) =>
      forall i | 0 <= i < |cell.elements| ensures UniqueKeys(Save(element, cell.elements[i])) {
        SaveUnique(element, cell.elements[i], |element.decls|);
      }
  }

  lemma {:induction false} CarryUnique(shape: Shape, from: Node, into: Node)
    requires UniqueKeys(from) && UniqueKeys(into)
    ensures UniqueKeys(Carry(shape, from, into))
    decreases from, 1, 0
  {
    if from.Obj? && into.Obj? {
      CarryUpToUnique(shape, from, into, |from.entries|);
    }
  }

  lemma {:induction false} CarryUpToUnique(shape: Shape, from: Node, into: Node, n: nat)
    requires from.Obj? && into.Obj? && n <= |from.entries| && UniqueKeys(from) && UniqueKeys(into)
    ensures UniqueKeys(CarryUpTo(shape, from, into, n))
    decreases from, 0, n
  {
    hide Settled;
    if n > 0 {
      var pair := from.entries[n - 1];
      var before := CarryUpTo(shape, from, into, n - 1);
      CarryUpToUnique(shape, from, into, n - 1);
      SettledUnique(shape, pair, Find(before, pair.key));
      var s := Settled(shape, pair, Find(before, pair.key));
      if s.Some? {
        PutUnique(before, pair.key, s.value);
      }
    }
  }

  lemma {:induction false} SettledUnique(shape: Shape, pair: Pair, held: Option<Node>)
    requires UniqueKeys(pair.value) && (held.Some? ==> UniqueKeys(held.value))
    ensures Settled(shape, pair, held).Some? ==> UniqueKeys(Settled(shape, pair, held).value)
    decreases pair, 0
  {
    var d := Declared(shape.decls, pair.key);
    if d.None? { return; }
    match shape.decls[d.value].kind
    case Group(inner) => CarryUnique(inner, pair.value, if held.Some? then held.value else EMPTY_OBJECT);
    case Objects(element) =>
      if held.Some? && held.value.Arr? && pair.value.Arr? {
        var merged := CarryItems(element, pair.value, held.value);
        forall i | 0 <= i < |merged.items| ensures UniqueKeys(merged.items[i]) {
          if i < |pair.value.items| {
            CarryUnique(element, pair.value.items[i], held.value.items[i]);
          }
        }
      }
    case _ =>
  }

  lemma {:induction false} ReplaceUnique(n: Node, steps: seq<Step>, x: Node)
    requires UniqueKeys(n) && At(n, steps).Some? && UniqueKeys(x)
    ensures UniqueKeys(Replace(n, steps, x))
    decreases |steps|
  {
    if steps != [] {
      var child := Child(n, steps[0]).value;
      ReplaceUnique(child, steps[1..], x);
      if steps[0].Key? {
        PutUnique(n, steps[0].key, Replace(child, steps[1..], x));
      }
    }
  }

  /** One entry or element less. */
  lemma OneLessUnique(n: Node, at: nat)
    requires UniqueKeys(n)
    ensures n.Obj? && at < |n.entries| ==> UniqueKeys(Obj(n.entries[..at] + n.entries[at + 1..]))
    ensures n.Arr? && at < |n.items| ==> UniqueKeys(Arr(n.items[..at] + n.items[at + 1..]))
  {
    if n.Obj? && at < |n.entries| {
      var left := n.entries[..at] + n.entries[at + 1..];
      assert forall k | 0 <= k < |left| :: left[k] == n.entries[if k < at then k else k + 1];
    } else if n.Arr? && at < |n.items| {
      var left := n.items[..at] + n.items[at + 1..];
      assert forall k | 0 <= k < |left| :: left[k] == n.items[if k < at then k else k + 1];
    }
  }

  lemma EraseStepUnique(n: Node, step: Step)
    requires UniqueKeys(n)
    ensures UniqueKeys(EraseStep(n, step).0)
  {
    hide UniqueKeys;
    match step
    case Index(i) => OneLessUnique(n, i);
    case Key(key) =>
      var at := IndexOf(Entries(n), key);
      if at.Some? {
        OneLessUnique(n, at.value);
      }
  }

  lemma EraseUnique(root: Node, steps: seq<Step>)
    requires UniqueKeys(root)
    ensures UniqueKeys(EraseAt(root, steps).0)
  {
    if steps != [] && At(root, steps[..|steps| - 1]).Some? {
      hide UniqueKeys, EraseStep, Replace;
      var front, last := steps[..|steps| - 1], steps[|steps| - 1];
      var parent := At(root, front).value;
      AtUnique(root, front);
      EraseStepUnique(parent, last);
      ReplaceUnique(root, front, EraseStep(parent, last).0);
    }
  }

  lemma DocumentUnique(shape: Shape, vals: Values, stored: Node)
    requires Fits(shape, vals) && UniqueKeys(stored)
    ensures UniqueKeys(Document(shape, vals, stored))
  {
    SaveUnique(shape, vals, |shape.decls|);
    CarryUnique(shape, stored, Save(shape, vals));
  }

  lemma {:induction false} SameValuesRefl(shape: Shape, vals: Values)
    requires Fits(shape, vals)
    ensures SameValues(shape, vals, vals)
    decreases shape, 0
  {
    forall i | 0 <= i < |shape.decls| ensures SameCell(shape.decls[i].kind, vals.cells[i], vals.cells[i]) {
      SameCellRefl(shape.decls[i].kind, vals.cells[i]);
    }
  }

  lemma {:induction false} SameCellRefl(kind: Kind, cell: Cell)
    requires FitsCell(kind, cell)
    ensures SameCell(kind, cell, cell)
    decreases kind, 0
  {
    match kind
    case Group(inner) => SameValuesRefl(inner, cell.inner);
    case Objects(element) =>
      forall i | 0 <= i < |cell.elements| ensures SameValues(element, cell.elements[i], cell.elements[i]) {
        SameValuesRefl(element, cell.elements[i]);
      }
    case _ =>
  }

  /** Two values alike to a third are alike. */
  lemma {:induction false} SameAsBoth(shape: Shape, a: Values, b: Values, c: Values)
    requires Fits(shape, a) && Fits(shape, b) && Fits(shape, c)
    requires SameValues(shape, a, b) && SameValues(shape, a, c)
    ensures SameValues(shape, b, c)
    decreases shape, 0
  {
    forall i | 0 <= i < |shape.decls| ensures SameCell(shape.decls[i].kind, b.cells[i], c.cells[i]) {
      assert SameCell(shape.decls[i].kind, a.cells[i], b.cells[i])
             && SameCell(shape.decls[i].kind, a.cells[i], c.cells[i]);
      SameCellAsBoth(shape.decls[i].kind, a.cells[i], b.cells[i], c.cells[i]);
    }
  }

  lemma {:induction false} SameCellAsBoth(kind: Kind, a: Cell, b: Cell, c: Cell)
    requires FitsCell(kind, a) && FitsCell(kind, b) && FitsCell(kind, c)
    requires SameCell(kind, a, b) && SameCell(kind, a, c)
    ensures SameCell(kind, b, c)
    decreases kind, 0
  {
    match kind
    case Group(inner) => SameAsBoth(inner, a.inner, b.inner, c.inner);
    case Objects(element) =>
      forall i | 0 <= i < |b.elements| ensures SameValues(element, b.elements[i], c.elements[i]) {
        SameAsBoth(element, a.elements[i], b.elements[i], c.elements[i]);
      }
    case _ =>
  }

  /** Whatever is erased from the document of what is shown, the rest is a document the rows can carry,
      and it loads as what is shown without what was erased. */
  lemma ErasedDocument(shape: Shape, vals: Values, stored: Node, steps: seq<Step>)
    requires Fits(shape, vals) && Tidy(shape, vals) && UniqueNames(shape) && UniqueKeys(stored)
    requires ElementsListed(shape, vals)
    ensures var next := Document(shape, vals, stored);
            var left := EraseAt(next, steps).0;
            && UniqueKeys(left) && AllMisfits(shape, left) == [] && !Throws(shape, left)
            && (Addresses(shape, vals, steps) ==>
                  && SameValues(shape, Filled(shape, left), Erased(shape, vals, steps))
                  && (steps[|steps| - 1].Index? ==> EraseAt(next, steps).1))
  {
    hide EraseAt, UniqueKeys, AllMisfits, Tidy, SameValues, Load, Addresses, Document, Throws, Filled;
    var next := Document(shape, vals, stored);
    OwnDocumentAdmitted(shape, vals, stored);
    NoMisfitsIffConforms(shape, next);
    DocumentLoads(shape, vals, stored);
    DocumentIs(shape, vals, stored);
    DocumentUnique(shape, vals, stored);
    EraseUnique(next, steps);
    EraseKeepsClean(shape, next, steps);
    EraseShrinks(next, steps, "");
    NoMisfitsIffConforms(shape, EraseAt(next, steps).0);
    FreshFilled(shape, EraseAt(next, steps).0);
    if Addresses(shape, vals, steps) {
      LoadErased(shape, next, vals, steps);
    }
  }

  // ----- The project's side -----

  /** The entry of the project that holds the module's config: none means the module is given nothing.
      The entry may have gone from the project since the editor was opened. */
  class ModuleEntry {
    var present: bool
    var config: Option<Node>

    method SetConfig(value: Node) returns (ok: bool)
      modifies this`config
      ensures ok <==> present && (value.Obj? || value.Str?)
      ensures config == if ok then Some(value) else old(config)
    {
      ok := present && (value.Obj? || value.Str?);
      if ok {
        config := Some(value);
      }
    }

    method ClearConfig() returns (ok: bool)
      modifies this`config
      ensures ok <==> present
      ensures config == if ok then None else old(config)
    {
      ok := present;
      if ok {
        config := None;
      }
    }
  }

  // ----- The editor -----

  /** How taking a document over ended; an escaping exception is the third way. */
  datatype Adopted = Drawn | Declined | Threw

  /** What taking the document over answers, and the values it leaves: none when declined, filled to the
      end when drawn, and up to the refused value when an exception escapes. */
  function Answer(own: Shape, palette: Shape, doc: Node): Adopted {
    if !SameShape(own, palette) || AllMisfits(own, doc) != [] then Declined
    else if Throws(own, doc) then Threw else Drawn
  }

  function Kept(own: Shape, palette: Shape, doc: Node): Option<Values> {
    if Answer(own, palette, doc) == Declined then None else Some(Filled(own, doc))
  }

  class Editor {
    /** The declaration of the config the registry builds, and the one the palette holds. */
    const own: Shape
    const palette: Shape
    const entry: ModuleEntry
    var values: Option<Values>
    var stored: Node

    ghost predicate Valid()
      reads this
    {
      && UniqueNames(own) && UniqueKeys(stored)
      && (values.Some? ==> Shown(values.value))
    }

    /** The values are well kept and of a document the rows can carry; unless an exception cut their filling
        short, they are that document's. */
    ghost predicate Shown(vals: Values)
      reads this
    {
      && Fits(own, vals) && Tidy(own, vals) && ElementsListed(own, vals)
      && SameShape(own, palette) && AllMisfits(own, stored) == []
      && (!Throws(own, stored) ==> SameValues(own, Filled(own, stored), vals))
    }

    constructor (own: Shape, palette: Shape, entry: ModuleEntry)
      requires UniqueNames(own)
      ensures Valid() && this.own == own && this.palette == palette && this.entry == entry
      ensures values == None && stored == Null
    {
      this.own, this.palette, this.entry := own, palette, entry;
      values, stored := None, Null;
    }

    /** Takes a fresh config, checks that both the palette's declaration and the document agree with it,
        and fills it. What an escaping exception leaves is kept: every field before the refused value is
        filled, the refused one and all after it are as declared. */
    method Adopt(doc: Node) returns (r: Adopted)
      requires UniqueNames(own) && UniqueKeys(doc)
      modifies this`values, this`stored
      ensures Valid() && stored == doc
      ensures r == Answer(own, palette, doc) && values == Kept(own, palette, doc)
      ensures r == Threw <==>
                SameShape(own, palette) && AllMisfits(own, doc) == [] && exists at :: OutsideSet(own, doc, at)
      ensures r == Declined <==> !SameShape(own, palette) || AllMisfits(own, doc) != []
      ensures r == Declined <==> values == None
      ensures r == Drawn ==> Taken(own, values.value, doc)
      ensures r == Threw ==>
                exists at :: OutsideSet(own, doc, at) && Stopped(own, Fresh(own), doc, values.value, at)
    {
      hide OutsideSet, Stopped, AllMisfits, Fill, Tidy, ElementsListed, Taken, SameShape, Fresh, UniqueKeys;
      stored, values := doc, None;
      LoadThrowsIff(own, Fresh(own), doc);
      if !SameShape(own, palette) {
        return Declined;
      }
      var misfits := CheckWhole(own, doc);
      if |misfits| != 0 {
        return Declined;
      }
      FilledTidy(own, doc);
      FilledListed(own, doc);
      SameValuesRefl(own, Filled(own, doc));
      var filled, threw, problems := LoadFieldsInto(own, Fresh(own), doc, [], []);
      values := Some(filled);
      if threw {
        FillStops(own, Fresh(own), doc);
        return Threw;
      }
      FilledTaken(own, doc);
      r := Drawn;
    }

    /** Writes the document into the project and reloads from it; the same document changes nothing, and
        where the project refuses, the stored one is taken over again. */
    method Commit(next: Node) returns (through: bool, how: Adopted)
      requires UniqueNames(own) && UniqueKeys(stored) && UniqueKeys(next)
      requires next == stored ==> Valid()
      modifies this`values, this`stored, entry`config
      ensures Valid()
      ensures next == old(stored) ==>
                through && how == Drawn && stored == next && values == old(values) && entry.config == old(entry.config)
      ensures next != old(stored) ==>
                && (through <==> entry.present && (next.Obj? || next.Str?))
                && stored == (if through then next else old(stored))
                && entry.config == (if !through then old(entry.config)
                                    else if next == Obj([]) then None else Some(next))
                && how == Answer(own, palette, stored) && values == Kept(own, palette, stored)
    {
      if next == stored {
        return true, Drawn;
      }
      if next.Obj? && |next.entries| == 0 {
        through := entry.ClearConfig();
      } else {
        through := entry.SetConfig(next);
      }
      if !through {
        how := Adopt(stored);
        return;
      }
      how := Adopt(next);
    }

    /** The end of every edit that wrote an entry: the config is committed. Unless the project refuses, the
        document loads as the values were edited, every undeclared key stays where it was, and the rows
        stay up unless an array of texts holds an element its declaration does not list. */
    method CommitValues(edited: Values) returns (through: bool)
      requires Valid() && values.Some? && Fits(own, edited) && Tidy(own, edited)
      modifies this`values, this`stored, entry`config
      ensures Valid()
      ensures through <==> entry.present || Document(own, edited, old(stored)) == old(stored)
      ensures through ==>
                && stored == Document(own, edited, old(stored))
                && KeepsUnknown(own, old(stored), stored)
                && (forall u | UnknownAt(own, edited, old(stored), u) :: At(stored, u) == At(old(stored), u))
                && !Throws(own, stored) && SameValues(own, Filled(own, stored), edited)
                && (values.Some? <==> ElementsListed(own, edited))
                && (values.Some? ==> SameValues(own, values.value, edited))
                && (stored != old(stored) ==> entry.config == if stored == Obj([]) then None else Some(stored))
      ensures !through ==>
                stored == old(stored) && values == Kept(own, palette, stored) && entry.config == old(entry.config)
    {
      hide UnknownAt, At, Document, KeepsUnknown, SameValues, Filled, Throws, ElementsListed, Tidy, AllMisfits;
      hide SameShape;
      hide UniqueKeys;
      ghost var was := stored;
      var saved := Save(own, edited);
      var next := CarryUnknown(own, stored, saved);
      assert next == Document(own, edited, was) by { DocumentIs(own, edited, was); }
      assert next.Obj? by { DocumentIs(own, edited, was); }
      DocumentRoundTrip(own, edited, was);
      DocumentUnique(own, edited, was);
      OwnDocumentAdmitted(own, edited, was);
      forall u | UnknownAt(own, edited, was, u) ensures At(next, u) == At(was, u) {
        UnknownStays(own, edited, was, u);
      }
      SameValuesRefl(own, edited);
      values := Some(edited);
      var how;
      through, how := Commit(next);
    }

    /** A choice, a check box or an edited text: the value goes to the field or the element the steps lead to,
        if its codec made one of the text and the declared set allows it. No edit of this kind ever takes the
        rows down. */
    method Write(tokens: seq<string>, parsed: Option<Scalar>) returns (through: bool)
      requires Valid()
      modifies this`values, this`stored, entry`config
      ensures Valid() && (values.Some? <==> old(values).Some?)
      ensures var now := if old(values).Some? then WriteAt(own, old(values).value, StepsOf(tokens), parsed) else None;
              && (now.None? ==>
                    && through && values == old(values) && stored == old(stored)
                    && entry.config == old(entry.config))
              && (now.Some? ==>
                    && (through <==> entry.present || Document(own, now.value, old(stored)) == old(stored))
                    && (through ==>
                          && stored == Document(own, now.value, old(stored))
                          && SameValues(own, Filled(own, stored), now.value)
                          && SameValues(own, values.value, now.value))
                    && (!through ==> stored == old(stored) && values == Some(Filled(own, stored))))
    {
      hide WriteAt, Document, SameValues, Filled, Throws, ElementsListed, Tidy, AllMisfits, SameShape, UniqueKeys;
      hide UnknownAt, At, KeepsUnknown;
      if values.None? {
        return true;
      }
      var now := WriteAt(own, values.value, StepsOf(tokens), parsed);
      if now.None? {
        return true;
      }
      WriteChangesOnly(own, values.value, StepsOf(tokens), parsed, []);
      through := CommitValues(now.value);
    }

    /** The "add" button of an array: a fresh element at its end. The rows stay up exactly when the element is
        one the declaration lists, which can be told before the click. */
    method AddElement(tokens: seq<string>) returns (through: bool)
      requires Valid()
      modifies this`values, this`stored, entry`config
      ensures Valid()
      ensures var now := if old(values).Some? then GrowAt(own, old(values).value, StepsOf(tokens)) else None;
              && (now.None? ==>
                    && through && values == old(values) && stored == old(stored)
                    && entry.config == old(entry.config))
              && (now.Some? ==>
                    && (through <==> entry.present || Document(own, now.value, old(stored)) == old(stored))
                    && (through ==>
                          && stored == Document(own, now.value, old(stored))
                          && SameValues(own, Filled(own, stored), now.value)
                          && SlotAt(own, old(values).value, StepsOf(tokens)).Some?
                          && var place := CellAt(own, old(values).value,
                             SlotAt(own, old(values).value, StepsOf(tokens)).value.hops);
                             place.Some? && (values.Some? <==> FreshElementListed(place.value.kind)))
                    && (!through ==> stored == old(stored) && values == Some(Filled(own, stored))))
    {
      hide GrowAt, Document, SameValues, Filled, Throws, ElementsListed, Tidy, AllMisfits, SameShape, UniqueKeys;
      hide UnknownAt, At, KeepsUnknown, CellAt, SlotAt, FreshElementListed;
      if values.None? {
        return true;
      }
      var now := GrowAt(own, values.value, StepsOf(tokens));
      if now.None? {
        return true;
      }
      GrowChangesOnly(own, values.value, StepsOf(tokens), []);
      through := CommitValues(now.value);
    }

    /** A document with something erased is taken over: the rows stay up, and show what is left. */
    method CommitErased(next: Node, ghost steps: seq<Step>) returns (through: bool)
      requires Valid() && values.Some? && next == EraseAt(Document(own, values.value, stored), steps).0
      modifies this`values, this`stored, entry`config
      ensures Valid() && values.Some?
      ensures next.Obj? && (through <==> entry.present || next == old(stored))
      ensures through ==> stored == next
      ensures through && Addresses(own, old(values).value, steps) ==>
                SameValues(own, values.value, Erased(own, old(values).value, steps))
      ensures !through ==> stored == old(stored) && values == Some(Filled(own, stored))
    {
      hide EraseAt, UniqueKeys, SameValues, AllMisfits, Throws, Tidy, Filled, Addresses, ElementsListed, SameShape;
      ghost var vals := values.value;
      ErasedDocument(own, vals, stored, steps);
      EraseShrinks(Document(own, vals, stored), steps, "") by { DocumentUnique(own, vals, stored); }
      assert next.Obj? by { DocumentIs(own, vals, stored); }
      SameValuesRefl(own, Filled(own, next));
      var how;
      through, how := Commit(next);
      if through && Addresses(own, vals, steps) {
        SameAsBoth(own, Filled(own, next), values.value, Erased(own, vals, steps));
      }
    }

    /** The "remove" button of an array element. The element the steps lead to goes, from the document and
        from the values alike, and every undeclared key that is not its own stays, counted without it; a
        token list that leads nowhere changes nothing. */
    method RemoveElement(tokens: seq<string>) returns (through: bool)
      requires Valid()
      modifies this`values, this`stored, entry`config
      ensures Valid() && (values.Some? <==> old(values).Some?)
      ensures var steps := StepsOf(tokens);
              if old(values).None? || steps == [] || !steps[|steps| - 1].Index?
                 || !EraseAt(Document(own, old(values).value, old(stored)), steps).1
              then stored == old(stored) && values == old(values)
              else
                var left := EraseAt(Document(own, old(values).value, old(stored)), steps).0;
                && (through <==> entry.present || left == old(stored))
                && (through ==> stored == left)
                && (!through ==> stored == old(stored) && values == Some(Filled(own, stored)))
      ensures var steps := StepsOf(tokens);
              through && old(values).Some? && steps != [] && steps[|steps| - 1].Index?
              && Addresses(own, old(values).value, steps) ==>
                && EraseAt(Document(own, old(values).value, old(stored)), steps).1
                && SameValues(own, values.value, Erased(own, old(values).value, steps))
                && forall u | UnknownAt(own, old(values).value, old(stored), u) && !(steps <= u) ::
                     At(old(stored), u).Some? && At(stored, Shifted(steps, u)) == At(old(stored), u)
    {
      hide Document, SameValues, AllMisfits, Throws, Tidy, Addresses, UniqueKeys, UnknownAt, Filled, ElementsListed;
      hide SameShape, Shifted;
      if values.None? || |tokens| == 0 {
        return true;
      }
      var steps := StepsOf(tokens);
      if !steps[|steps| - 1].Index? {
        return true;
      }
      ghost var vals, was := values.value, stored;
      var saved := Save(own, values.value);
      var next := CarryUnknown(own, stored, saved);
      assert next == Document(own, vals, was) by { DocumentIs(own, vals, was); }
      ErasedDocument(own, vals, was, steps);
      var parent := ParentAt(next, tokens);
      if parent.None? {
        return true;
      }
      var (left, erased) := EraseStep(parent.value, steps[|steps| - 1]);
      if !erased {
        return true;
      }
      var now := Replace(next, steps[..|steps| - 1], left);
      assert (now, true) == EraseAt(next, steps);
      UnknownOutlives(own, vals, was, steps);
      through := CommitErased(now, steps);
    }

    /** A required field's row was emptied: the field leaves the document, the config is as if it had never
        been filled, and every undeclared key stays where it is. */
    method ClearRequired(tokens: seq<string>) returns (through: bool)
      requires Valid()
      modifies this`values, this`stored, entry`config
      ensures Valid() && (values.Some? <==> old(values).Some?)
      ensures old(values).None? || !OnRequired(own, old(values).value, StepsOf(tokens)) ==>
                stored == old(stored) && values == old(values)
      ensures old(values).Some? && OnRequired(own, old(values).value, StepsOf(tokens)) ==>
                var steps := StepsOf(tokens);
                var left := EraseAt(Document(own, old(values).value, old(stored)), steps).0;
                && (through <==> entry.present || left == old(stored))
                && (through ==>
                      && stored == left && Addresses(own, old(values).value, steps)
                      && SameValues(own, values.value, Erased(own, old(values).value, steps))
                      && forall u | UnknownAt(own, old(values).value, old(stored), u) ::
                           At(old(stored), u).Some? && At(stored, u) == At(old(stored), u))
                && (!through ==> stored == old(stored) && values == Some(Filled(own, stored)))
    {
      hide Document, SameValues, AllMisfits, Throws, Tidy, Addresses, UniqueKeys, EraseAt, UnknownAt, Filled;
      hide ElementsListed, SameShape;
      if values.None? || |tokens| == 0 {
        return true;
      }
      var steps := StepsOf(tokens);
      if !OnRequired(own, values.value, steps) {
        return true;
      }
      ghost var vals, was := values.value, stored;
      RowAddresses(own, vals, [], steps);
      WalkLast(InConfig(own, vals, []), steps);
      var saved := Save(own, values.value);
      var next := CarryUnknown(own, stored, saved);
      assert next == Document(own, vals, was) by { DocumentIs(own, vals, was); }
      var (left, erased) := EraseAt(next, steps);
      UnknownOutlives(own, vals, was, steps);
      through := CommitErased(left, steps);
    }
  }

  /** The whole check of a stored document. */
  method CheckWhole(shape: Shape, doc: Node) returns (misfits: seq<Line>)
    ensures misfits == AllMisfits(shape, doc)
  {
    if !doc.Obj? && !doc.Null? {
      return [Line([], WrongForm(doc))];
    }
    misfits := CollectMisfits(shape, doc, [], []);
  }

  lemma FilledTaken(shape: Shape, doc: Node)
    requires AllMisfits(shape, doc) == [] && !Throws(shape, doc)
    ensures Taken(shape, Filled(shape, doc), doc)
  {
    hide Throws, Filled, Taken;
    NoMisfitsIffConforms(shape, doc);
    FreshFilled(shape, doc);
    ConformingIsTaken(shape, Fresh(shape), doc);
  }

  /** The undeclared keys after an erasure, all of them at once. */
  lemma UnknownOutlives(shape: Shape, vals: Values, stored: Node, steps: seq<Step>)
    requires Fits(shape, vals) && Tidy(shape, vals) && UniqueNames(shape) && UniqueKeys(stored)
    requires steps != []
    ensures Addresses(shape, vals, steps) ==>
              var left := EraseAt(Document(shape, vals, stored), steps).0;
              if steps[|steps| - 1].Index?
              then forall u | UnknownAt(shape, vals, stored, u) && !(steps <= u) ::
                     At(stored, u).Some? && At(left, Shifted(steps, u)) == At(stored, u)
              else forall u | UnknownAt(shape, vals, stored, u) :: At(stored, u).Some? && At(left, u) == At(stored, u)
  {
    hide Tidy, Addresses, UnknownAt, EraseAt, Document, UniqueKeys, Shifted, At;
    DocumentUnique(shape, vals, stored);
    if Addresses(shape, vals, steps) {
      if steps[|steps| - 1].Index? {
        forall u | UnknownAt(shape, vals, stored, u) && !(steps <= u)
          ensures At(stored, u).Some?
          ensures At(EraseAt(Document(shape, vals, stored), steps).0, Shifted(steps, u)) == At(stored, u)
        {
          RemovedElementOnly(shape, vals, stored, steps, u);
        }
      } else {
        forall u | UnknownAt(shape, vals, stored, u)
          ensures At(stored, u).Some? && At(EraseAt(Document(shape, vals, stored), steps).0, u) == At(stored, u)
        {
          ClearedFieldOnly(shape, vals, stored, steps, u);
        }
      }
    }
  }

  /** Those are the steps of the row of a required field, and no others. */
  lemma RequiredRows(shape: Shape, vals: Values, steps: seq<Step>)
    requires Fits(shape, vals)
    ensures OnRequired(shape, vals, steps) <==>
            && SlotAt(shape, vals, steps).Some? && SlotAt(shape, vals, steps).value.element.None?
            && var place := CellAt(shape, vals, SlotAt(shape, vals, steps).value.hops);
               place.Some? && place.value.kind.Leaf? && place.value.kind.fallback == None
  {
    hide Walk, CellAt;
    if SlotAt(shape, vals, steps).Some? {
      SlotNames(shape, vals, steps);
    }
  }

  /** The steps lead to a scalar field without a default. */
  predicate OnRequired(shape: Shape, vals: Values, steps: seq<Step>)
    requires Fits(shape, vals)
  {
    var here := Walk(InConfig(shape, vals, []), steps);
    here.OnField? && here.kind.Leaf? && here.kind.fallback.None?
  }
}
