/** Addresses inside a document: the step tokens a row carries, and erasing at an address. */
module ConfigAddress {
  import opened Common
  import opened Decimal
  import opened ConfigNode

  // ----- Tokens -----

  const SIZE_LIMIT: nat := 0x1_0000_0000_0000_0000

  /** A step as the text it travels as: "k:" and the key, or "i:" and the position. */
  function Token(step: Step): string {
    match step case Key(key) => "k:" + key case Index(i) => "i:" + Digits(i)
  }

  /** What follows the two-character mark. */
  function Body(token: string): string {
    if |token| < 2 then "" else token[2..]
  }

  /** A number that does not parse, or does not fit, reads as zero. */
  function ToNumber(text: string): nat {
    if text != "" && AllDigits(text) && Value(text) < SIZE_LIMIT then Value(text) else 0
  }

  function StepOf(token: string): Step {
    if |token| >= 2 && token[..2] == "i:" then Index(ToNumber(Body(token))) else Key(Body(token))
  }

  /** Positions are sizes, so they fit the number a token is read back as. */
  predicate Addressable(steps: seq<Step>) {
    forall k | 0 <= k < |steps| :: steps[k].Index? ==> steps[k].i < SIZE_LIMIT
  }

  function Tokens(steps: seq<Step>): seq<string> {
    seq(|steps|, k requires 0 <= k < |steps| => Token(steps[k]))
  }

  function StepsOf(tokens: seq<string>): seq<Step> {
    seq(|tokens|, k requires 0 <= k < |tokens| => StepOf(tokens[k]))
  }

  lemma StepOfToken(step: Step)
    ensures StepOf(Token(step)) ==
            if step.Index? && step.i > 0xFFFF_FFFF_FFFF_FFFF then Index(0) else step
  {
    match step
    case Key(key) => assert ("k:" + key)[..2] == "k:" && ("k:" + key)[2..] == key;
    case Index(i) =>
      ValueOfDigits(i);
      assert ("i:" + Digits(i))[..2] == "i:" && ("i:" + Digits(i))[2..] == Digits(i);
  }

  /** What any token reads as: after "i:" a position, 0 if it is no number that fits; after any other mark, and
      for a token too short to have one, a key. */
  lemma TokenReads(mark: string, body: string)
    requires |mark| == 2
    ensures StepOf(mark + body) ==
            if mark != "i:" then Key(body)
            else if body != "" && AllDigits(body) && Value(body) <= 0xFFFF_FFFF_FFFF_FFFF then Index(Value(body))
            else Index(0)
    ensures StepOf("") == StepOf(mark[..1]) == Key("")
  {
    assert (mark + body)[..2] == mark && (mark + body)[2..] == body;
  }

  /** Every address travels as tokens and comes back, whatever characters its keys hold; so two
      different addresses never share their tokens. */
  lemma TokensRoundTrip(steps: seq<Step>)
    requires forall k | 0 <= k < |steps| :: steps[k].Index? ==> steps[k].i <= 0xFFFF_FFFF_FFFF_FFFF
    ensures StepsOf(Tokens(steps)) == steps
  {
    forall k | 0 <= k < |steps| ensures StepsOf(Tokens(steps))[k] == steps[k] {
      StepOfToken(steps[k]);
    }
  }

  // ----- Looking up -----

  /** The child one step down. An index counts for an array only. */
  function Child(n: Node, step: Step): Option<Node> {
    match step
    case Key(key) => Find(n, key)
    case Index(i) => if n.Arr? && i < |n.items| then Some(n.items[i]) else None
  }

  function At(n: Node, steps: seq<Step>): Option<Node>
    decreases |steps|
  {
    if steps == [] then Some(n)
    else
      var child := Child(n, steps[0]);
      if child.None? then None else At(child.value, steps[1..])
  }

  /** The parent an address names: every step but the last is taken. */
  method ParentAt(root: Node, tokens: seq<string>) returns (parent: Option<Node>)
    requires tokens != []
    ensures parent == At(root, StepsOf(tokens)[..|tokens| - 1])
  {
    var steps := StepsOf(tokens);
    var front := steps[..|steps| - 1];
    var here := root;
    for k := 0 to |front|
      invariant At(root, front) == At(here, front[k..])
    {
      var step := front[k];
      assert front[k..][0] == step && front[k..][1..] == front[k + 1..];
      var child := Child(here, step);
      if child.None? {
        return None;
      }
      here := child.value;
    }
    assert front[|front|..] == [];
    parent := Some(here);
  }

  // ----- Writing through an address -----

  function SetChild(n: Node, step: Step, x: Node): Node
    requires Child(n, step).Some?
  {
    match step
    case Key(key) => Put(n, key, x)
    case Index(i) => Arr(n.items[i := x])
  }

  /** The tree with what the address names replaced: what editing through the pointer does. */
  function Replace(n: Node, steps: seq<Step>, x: Node): Node
    requires At(n, steps).Some?
    decreases |steps|
  {
    if steps == [] then x
    else SetChild(n, steps[0], Replace(Child(n, steps[0]).value, steps[1..], x))
  }

  /** Removing an entry by position works on arrays and on objects alike. */
  function EraseIndex(n: Node, i: nat): (Node, bool) {
    if n.Arr? && i < |n.items| then (Arr(n.items[..i] + n.items[i + 1..]), true)
    else if n.Obj? && i < |n.entries| then (Obj(n.entries[..i] + n.entries[i + 1..]), true)
    else (n, false)
  }

  function EraseKey(n: Node, key: string): (Node, bool) {
    var at := IndexOf(Entries(n), key);
    if n.Obj? && at.Some? then (Obj(n.entries[..at.value] + n.entries[at.value + 1..]), true) else (n, false)
  }

  function EraseStep(n: Node, step: Step): (Node, bool) {
    match step case Key(key) => EraseKey(n, key) case Index(i) => EraseIndex(n, i)
  }

  function EraseAt(root: Node, steps: seq<Step>): (Node, bool) {
    if steps == [] then (root, false)
    else
      var front, last := steps[..|steps| - 1], steps[|steps| - 1];
      var parent := At(root, front);
      if parent.None? then (root, false)
      else
        var (left, erased) := EraseStep(parent.value, last);
        (Replace(root, front, left), erased)
  }

  // ----- What it leaves alone -----

  lemma {:induction false} ReplaceSame(n: Node, steps: seq<Step>)
    requires At(n, steps).Some?
    ensures Replace(n, steps, At(n, steps).value) == n
    decreases |steps|
  {
    if steps != [] {
      var child := Child(n, steps[0]).value;
      ReplaceSame(child, steps[1..]);
      if steps[0].Key? {
        PutSame(Entries(n), steps[0].key, child);
      }
    }
  }

  lemma {:induction false} AtReplace(n: Node, steps: seq<Step>, x: Node, more: seq<Step>)
    requires At(n, steps).Some?
    ensures At(Replace(n, steps, x), steps + more) == At(x, more)
    decreases |steps|
  {
    hide Lookup, PutEntry;
    if steps == [] {
      assert steps + more == more;
    } else {
      var child := Child(n, steps[0]).value;
      var now := Replace(child, steps[1..], x);
      AtReplace(child, steps[1..], x, more);
      assert (steps + more)[1..] == steps[1..] + more;
      if steps[0].Key? {
        LookupPut(Entries(n), steps[0].key, now, steps[0].key);
      }
      assert Child(SetChild(n, steps[0], now), steps[0]) == Some(now);
    }
  }

  /** The two addresses part at some step. */
  ghost predicate Diverges(a: seq<Step>, b: seq<Step>) {
    exists k :: 0 <= k < |a| && k < |b| && a[..k] == b[..k] && a[k] != b[k]
  }

  lemma {:induction false} ReplaceElsewhere(n: Node, steps: seq<Step>, x: Node, other: seq<Step>)
    requires At(n, steps).Some? && Diverges(steps, other)
    ensures At(Replace(n, steps, x), other) == At(n, other)
    decreases |steps|
  {
    var k :| 0 <= k < |steps| && k < |other| && steps[..k] == other[..k] && steps[k] != other[k];
    var child := Child(n, steps[0]).value;
    var now := Replace(child, steps[1..], x);
    if k == 0 {
      if steps[0].Key? && other[0].Key? {
        LookupPut(Entries(n), steps[0].key, now, other[0].key);
      }
    } else {
      assert steps[0] == steps[..k][0] && other[0] == other[..k][0];
      assert steps[1..][..k - 1] == steps[..k][1..] && other[1..][..k - 1] == other[..k][1..];
      assert Diverges(steps[1..], other[1..]) by {
        assert steps[1..][k - 1] == steps[k] && other[1..][k - 1] == other[k];
      }
      ReplaceElsewhere(child, steps[1..], x, other[1..]);
      if steps[0].Key? {
        LookupPut(Entries(n), steps[0].key, now, steps[0].key);
      }
    }
  }

  lemma {:induction false} LookupWithout(entries: seq<Pair>, at: nat, key: string)
    requires DistinctKeys(entries) && at < |entries|
    ensures Lookup(entries[..at] + entries[at + 1..], key) ==
            if key == entries[at].key then None else Lookup(entries, key)
  {
    if at == 0 {
      assert entries[..0] + entries[1..] == entries[1..];
    } else {
      LookupWithout(entries[1..], at - 1, key);
      assert (entries[..at] + entries[at + 1..])[1..] == entries[1..][..at - 1] + entries[1..][at..];
    }
  }

  /** Where an address points once `erased` is gone: later siblings in an array move up by one. */
  function Shifted(erased: seq<Step>, other: seq<Step>): seq<Step>
    requires erased != []
  {
    var k := |erased| - 1;
    if |other| > k && other[..k] == erased[..k] && erased[k].Index? && other[k].Index? && erased[k].i < other[k].i
    then other[..k] + [Index(other[k].i - 1)] + other[k + 1..]
    else other
  }

  /** erase_at answers true exactly when there was something to remove: what the address names, or,
      where the last step is an index into an object, an entry at that position. On false the tree is
      what it was. */
  lemma EraseAnswers(root: Node, steps: seq<Step>)
    ensures !EraseAt(root, steps).1 ==> EraseAt(root, steps).0 == root
    ensures EraseAt(root, steps).1 <==>
            steps != [] &&
            var parent := At(root, steps[..|steps| - 1]);
            var last := steps[|steps| - 1];
            parent.Some? && (Child(parent.value, last).Some?
                             || (last.Index? && parent.value.Obj? && last.i < |parent.value.entries|))
  {
    if steps != [] && At(root, steps[..|steps| - 1]).Some? {
      ReplaceSame(root, steps[..|steps| - 1]);
    }
  }

  lemma {:induction false} AtLast(n: Node, front: seq<Step>, last: Step)
    ensures At(n, front + [last]) == if At(n, front).None? then None else Child(At(n, front).value, last)
    decreases |front|
  {
    if front == [] {
      assert [last][1..] == [] && front + [last] == [last];
    } else {
      var child := Child(n, front[0]);
      assert (front + [last])[1..] == front[1..] + [last];
      if child.Some? {
        AtLast(child.value, front[1..], last);
      }
    }
  }

  lemma {:induction false} AtConcat(n: Node, a: seq<Step>, b: seq<Step>)
    ensures At(n, a + b) == if At(n, a).None? then None else At(At(n, a).value, b)
    decreases |a|
  {
    if a == [] {
      assert a + b == b;
    } else {
      assert (a + b)[1..] == a[1..] + b;
      if Child(n, a[0]).Some? {
        AtConcat(Child(n, a[0]).value, a[1..], b);
      }
    }
  }

  lemma {:induction false} AtUnique(n: Node, steps: seq<Step>)
    requires UniqueKeys(n) && At(n, steps).Some?
    ensures UniqueKeys(At(n, steps).value)
    decreases |steps|
  {
    if steps != [] {
      var child := Child(n, steps[0]).value;
      assert UniqueKeys(child);
      AtUnique(child, steps[1..]);
    }
  }

  /** The erased child's siblings, and everything below them. */
  lemma SiblingsKept(root: Node, front: seq<Step>, last: Step, sibling: Step, rest: seq<Step>)
    requires UniqueKeys(root) && At(root, front).Some? && Child(At(root, front).value, last).Some? && sibling != last
    ensures var now := if last.Index? && sibling.Index? && last.i < sibling.i then Index(sibling.i - 1) else sibling;
            At(Replace(root, front, EraseStep(At(root, front).value, last).0), front + ([now] + rest)) ==
            At(root, front + ([sibling] + rest))
  {
    hide EraseStep, Replace;
    var now := if last.Index? && sibling.Index? && last.i < sibling.i then Index(sibling.i - 1) else sibling;
    AtUnique(root, front);
    AtReplace(root, front, EraseStep(At(root, front).value, last).0, [now] + rest);
    AtConcat(root, front, [sibling] + rest);
    SiblingKept(At(root, front).value, last, sibling, rest);
  }

  /** Erasing what an address names removes that entry or element and nothing else: every address that
      is not the erased one, not below it and not on the way to it still names the same value, later
      siblings in the same array one position earlier. */
  lemma EraseRemovesOnly(root: Node, steps: seq<Step>, other: seq<Step>)
    requires UniqueKeys(root) && steps != [] && At(root, steps).Some?
    requires !(steps <= other) && !(other <= steps)
    ensures EraseAt(root, steps).1
    ensures At(EraseAt(root, steps).0, Shifted(steps, other)) == At(root, other)
  {
    hide EraseStep, Replace, UniqueKeys, Child;
    var k := |steps| - 1;
    var front, last := steps[..k], steps[k];
    assert steps == front + [last];
    AtLast(root, front, last);
    EraseAnswers(root, steps);
    if front <= other {
      assert other[..k] == front;
      assert other[k] != last by {
        assert other[..k + 1] == other[..k] + [other[k]];
      }
      assert other == front + ([other[k]] + other[k + 1..]);
      assert Shifted(steps, other) == front + ([Shifted(steps, other)[k]] + other[k + 1..]);
      SiblingsKept(root, front, last, other[k], other[k + 1..]);
    } else {
      assert other <= front ==> other <= steps;
      NotPrefixDiverges(front, other);
      assert |other| > k ==> other[..k] != front;
      ReplaceElsewhere(root, front, EraseStep(At(root, front).value, last).0, other);
    }
  }

  lemma {:induction false} NotPrefixDiverges(a: seq<Step>, b: seq<Step>)
    requires !(a <= b) && !(b <= a)
    ensures Diverges(a, b)
  {
    if a[0] != b[0] {
      assert a[..0] == b[..0];
    } else {
      assert a == [a[0]] + a[1..] && b == [b[0]] + b[1..];
      NotPrefixDiverges(a[1..], b[1..]);
      var k :| 0 <= k < |a[1..]| && k < |b[1..]| && a[1..][..k] == b[1..][..k] && a[1..][k] != b[1..][k];
      assert a[..k + 1] == [a[0]] + a[1..][..k] && b[..k + 1] == [b[0]] + b[1..][..k];
      assert a[k + 1] != b[k + 1];
    }
  }

  /** One level: what a sibling of the erased child holds, and where it now stands. */
  lemma SiblingKept(parent: Node, last: Step, sibling: Step, rest: seq<Step>)
    requires UniqueKeys(parent) && Child(parent, last).Some? && sibling != last
    ensures var now := if last.Index? && sibling.Index? && last.i < sibling.i then Index(sibling.i - 1) else sibling;
            At(EraseStep(parent, last).0, [now] + rest) == At(parent, [sibling] + rest)
  {
    var now := if last.Index? && sibling.Index? && last.i < sibling.i then Index(sibling.i - 1) else sibling;
    var left := EraseStep(parent, last).0;
    assert ([now] + rest)[1..] == rest && ([sibling] + rest)[1..] == rest;
    if last.Key? && sibling.Key? {
      LookupWithout(parent.entries, IndexOf(parent.entries, last.key).value, sibling.key);
    }
    assert Child(left, now) == Child(parent, sibling);
  }

  /** What was erased by key is gone. */
  lemma EraseKeyGone(root: Node, steps: seq<Step>)
    requires UniqueKeys(root) && steps != [] && steps[|steps| - 1].Key? && At(root, steps).Some?
    ensures At(EraseAt(root, steps).0, steps).None?
  {
    var k := |steps| - 1;
    assert steps == steps[..k] + [steps[k]];
    AtLast(root, steps[..k], steps[k]);
    AtUnique(root, steps[..k]);
    var parent := At(root, steps[..k]).value;
    AtReplace(root, steps[..k], EraseStep(parent, steps[k]).0, [steps[k]]);
    LookupWithout(parent.entries, IndexOf(parent.entries, steps[k].key).value, steps[k].key);
  }

  /** Erasing an element leaves the others, in order. */
  lemma EraseElement(root: Node, front: seq<Step>, i: nat)
    requires At(root, front).Some? && At(root, front).value.Arr? && i < |At(root, front).value.items|
    ensures var items := At(root, front).value.items;
            var (now, erased) := EraseAt(root, front + [Index(i)]);
            erased && At(now, front) == Some(Arr(items[..i] + items[i + 1..]))
  {
    hide Replace, Lookup;
    var items := At(root, front).value.items;
    assert (front + [Index(i)])[..|front|] == front;
    AtReplace(root, front, Arr(items[..i] + items[i + 1..]), []);
    assert front + [] == front;
  }
}
