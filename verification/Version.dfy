/** Module versions: the parser, the printer, and their order. */
module Version {
  import opened Common
  import opened Decimal

  const MAX_PARTS: nat := 4

  /** Largest value of a 32-bit unsigned. */
  const UNSIGNED_MAX: nat := 0xFFFF_FFFF

  /** Four components, zero-padded, and how many of them were given. */
  datatype Version = Version(parts: seq<nat>, count: nat)

  datatype ParseError = Overflow | EmptyPart | TooManyParts | InvalidCharacter

  predicate Valid(v: Version) {
    && |v.parts| == MAX_PARTS && v.count <= MAX_PARTS
    && (forall k | 0 <= k < MAX_PARTS :: v.parts[k] <= UNSIGNED_MAX)
    && forall k | v.count <= k < MAX_PARTS :: v.parts[k] == 0
  }

  // ----- Dotted text -----

  /** The pieces between the dots; a text without dots is one piece. */
  function Split(s: string): (r: seq<string>)
    ensures r != []
  {
    if s == "" then [""]
    else
      var n := |s| - 1;
      var before := Split(s[..n]);
      if s[n] == '.' then before + [""] else before[..|before| - 1] + [before[|before| - 1] + [s[n]]]
  }

  function Join(pieces: seq<string>): string
    requires pieces != []
  {
    var n := |pieces| - 1;
    if n == 0 then pieces[0] else Join(pieces[..n]) + "." + pieces[n]
  }

  lemma {:induction false} JoinSplit(s: string)
    ensures Join(Split(s)) == s
  {
    if s != "" {
      var n := |s| - 1;
      var before := Split(s[..n]);
      JoinSplit(s[..n]);
      assert s == s[..n] + [s[n]];
      if s[n] == '.' {
        assert (before + [""])[..|before|] == before;
      } else {
        var m := |before| - 1;
        var now := before[..m] + [before[m] + [s[n]]];
        assert now[..m] == before[..m];
      }
    }
  }

  predicate NoDot(s: string) {
    '.' !in s
  }

  /** The pieces with more text at the end of the last one. */
  function Extend(pieces: seq<string>, more: string): seq<string>
    requires pieces != []
  {
    pieces[..|pieces| - 1] + [pieces[|pieces| - 1] + more]
  }

  lemma SplitChar(s: string, c: char)
    ensures Split(s + [c]) == if c == '.' then Split(s) + [""] else Extend(Split(s), [c])
  {
    assert (s + [c])[..|s|] == s;
  }

  lemma {:induction false} SplitAppend(s: string, piece: string)
    requires NoDot(piece)
    ensures Split(s + piece) == Extend(Split(s), piece)
  {
    hide Split;
    if piece == "" {
      assert s + piece == s;
      assert Split(s)[|Split(s)| - 1] + "" == Split(s)[|Split(s)| - 1];
      assert Extend(Split(s), "") == Split(s);
    } else {
      var n := |piece| - 1;
      var last := Split(s)[|Split(s)| - 1];
      SplitAppend(s, piece[..n]);
      SplitChar(s + piece[..n], piece[n]);
      assert piece == piece[..n] + [piece[n]];
      assert s + piece == s + piece[..n] + [piece[n]];
      assert last + piece == last + piece[..n] + [piece[n]];
    }
  }

  lemma {:induction false} SplitJoin(pieces: seq<string>)
    requires pieces != [] && forall k | 0 <= k < |pieces| :: NoDot(pieces[k])
    ensures Split(Join(pieces)) == pieces
  {
    var n := |pieces| - 1;
    assert pieces == pieces[..n] + [pieces[n]];
    if n == 0 {
      SplitAppend("", pieces[0]);
      assert "" + pieces[0] == pieces[0];
      assert Extend([""], pieces[0]) == [pieces[0]];
    } else {
      hide Split;
      var front := Join(pieces[..n]);
      SplitJoin(pieces[..n]);
      SplitChar(front, '.');
      assert front + "." == front + ['.'];
      SplitAppend(front + ".", pieces[n]);
      assert (pieces[..n] + [""])[..n] == pieces[..n] && "" + pieces[n] == pieces[n];
      assert Extend(pieces[..n] + [""], pieces[n]) == pieces[..n] + [pieces[n]];
    }
  }

  // ----- The grammar -----

  predicate GoodPiece(piece: string) {
    piece != "" && AllDigits(piece) && Value(piece) <= UNSIGNED_MAX
  }

  /** One to four non-empty decimal pieces, each at most the unsigned maximum. */
  predicate Accepts(text: string) {
    |Split(text)| <= MAX_PARTS && forall k | 0 <= k < |Split(text)| :: GoodPiece(Split(text)[k])
  }

  function Pad(values: seq<nat>): (r: seq<nat>)
    requires |values| <= MAX_PARTS
    ensures |r| == MAX_PARTS && values == r[..|values|]
    ensures forall k | |values| <= k < MAX_PARTS :: r[k] == 0
  {
    values + seq(MAX_PARTS - |values|, _ => 0)
  }

  function Values(pieces: seq<string>): (r: seq<nat>)
    requires forall k | 0 <= k < |pieces| :: AllDigits(pieces[k])
    ensures |r| == |pieces|
  {
    seq(|pieces|, k requires 0 <= k < |pieces| => Value(pieces[k]))
  }

  function Parsed(text: string): (v: Version)
    requires Accepts(text)
    ensures Valid(v) && v.count == |Split(text)|
  {
    Version(Pad(Values(Split(text))), |Split(text)|)
  }

  // ----- The parser -----

  /** A prefix already rules the whole text out. */
  predicate Hopeless(pieces: seq<string>)
    requires pieces != []
  {
    || |pieces| > MAX_PARTS
    || (exists k :: 0 <= k < |pieces| - 1 && !GoodPiece(pieces[k]))
    || !AllDigits(pieces[|pieces| - 1])
    || Value(pieces[|pieces| - 1]) > UNSIGNED_MAX
  }

  lemma {:induction false} PieceGrows(s: string, n: nat)
    requires n <= |s|
    ensures var a, b := Split(s[..n]), Split(s);
            && |a| <= |b| && a[..|a| - 1] == b[..|a| - 1]
            && a[|a| - 1] <= b[|a| - 1]
  {
    if n == |s| {
      assert s[..n] == s;
    } else {
      PieceGrows(s[..|s| - 1], n);
      assert s[..|s| - 1][..n] == s[..n];
    }
  }

  lemma HopelessStays(s: string, n: nat)
    requires n <= |s| && Hopeless(Split(s[..n]))
    ensures !Accepts(s)
  {
    PieceGrows(s, n);
    var a, b := Split(s[..n]), Split(s);
    var last := |a| - 1;
    if AllDigits(b[last]) {
      assert a[last] == b[last][..|a[last]|];
      ValueGrows(b[last], |a[last]|);
    } else {
      assert !GoodPiece(b[last]);
    }
    if k :| 0 <= k < last && !GoodPiece(a[k]) {
      assert b[k] == b[..last][k] == a[..last][k];
    }
  }

  /** What the parser's locals say about the pieces read so far. */
  ghost predicate Reading(pieces: seq<string>, parts: seq<nat>, count: nat, part: nat, hasDigit: bool) {
    && count <= MAX_PARTS && |pieces| == count + 1
    && (forall k | 0 <= k < count :: GoodPiece(pieces[k]))
    && AllDigits(pieces[count]) && part == Value(pieces[count]) && part <= UNSIGNED_MAX
    && (hasDigit <==> pieces[count] != "")
    && parts == Pad(Values(pieces[..count]))
  }

  lemma ReadDigit(pieces: seq<string>, parts: seq<nat>, count: nat, part: nat, hasDigit: bool, c: char)
    requires Reading(pieces, parts, count, part, hasDigit) && IsDigit(c)
    ensures var now := Extend(pieces, [c]);
            if part > (UNSIGNED_MAX - DigitValue(c)) / 10
            then Hopeless(now) && TooLarge(pieces[|pieces| - 1] + [c])
            else Reading(now, parts, count, part * 10 + DigitValue(c), true)
  {
    var piece := pieces[count] + [c];
    assert piece[..|piece| - 1] == pieces[count];
    assert Value(piece) == part * 10 + DigitValue(c);
    assert Extend(pieces, [c])[..count] == pieces[..count];
  }

  lemma ReadDot(pieces: seq<string>, parts: seq<nat>, count: nat, part: nat, hasDigit: bool)
    requires Reading(pieces, parts, count, part, hasDigit)
    ensures if !hasDigit || count == MAX_PARTS then Hopeless(pieces + [""])
            else Reading(pieces + [""], parts[count := part], count + 1, 0, false)
  {
    var now := pieces + [""];
    if !hasDigit {
      assert !GoodPiece(now[count]);
    } else if count < MAX_PARTS {
      assert now[..count + 1] == pieces == pieces[..count + 1];
    }
  }

  /** One pass over the characters: `part` is the component being read, with a guard that refuses the
      digit that would not fit. It accepts exactly the grammar. */
  method ParseVersion(text: string) returns (r: Result<Version, ParseError>)
    ensures r.Ok? <==> Accepts(text)
    ensures r.Ok? ==> r.value == Parsed(text)
    ensures r.Err? ==> Blames(r.error, text)
  {
    hide Blames;
    hide Split, Hopeless, Accepts, Parsed, Value, GoodPiece, Values;
    var parts: seq<nat>, count: nat := [0, 0, 0, 0], 0;
    var part: nat, hasDigit := 0, false;
    ghost var pieces := [""];
    ReadStart();
    assert text[..0] == "";
    for i := 0 to |text|
      invariant pieces == Split(text[..i])
      invariant Reading(pieces, parts, count, part, hasDigit)
    {
      assert text[..i + 1] == text[..i] + [text[i]];
      var c := text[i];
      SplitChar(text[..i], c);
      if IsDigit(c) {
        ReadDigit(pieces, parts, count, part, hasDigit, c);
        var digit := DigitValue(c);
        if part > (UNSIGNED_MAX - digit) / 10 {
          HopelessStays(text, i + 1);
          Blame(Overflow, text, i + 1, pieces, c);
          return Err(Overflow);
        }
        part := part * 10 + digit;
        hasDigit := true;
        pieces := Extend(pieces, [c]);
      } else if c == '.' {
        ReadDot(pieces, parts, count, part, hasDigit);
        if !hasDigit {
          HopelessStays(text, i + 1);
          Blame(EmptyPart, text, i + 1, pieces, c);
          return Err(EmptyPart);
        }
        if count == MAX_PARTS {
          HopelessStays(text, i + 1);
          Blame(TooManyParts, text, i + 1, pieces, c);
          return Err(TooManyParts);
        }
        parts := parts[count := part];
        count := count + 1;
        part, hasDigit := 0, false;
        pieces := pieces + [""];
      } else {
        BadCharacter(pieces, c);
        HopelessStays(text, i + 1);
        Blame(InvalidCharacter, text, i + 1, pieces, c);
        return Err(InvalidCharacter);
      }
    }
    assert text[..|text|] == text;
    ReadEnd(text, parts, count, part, hasDigit);
    if !hasDigit {
      BlameEnd(EmptyPart, text);
      return Err(EmptyPart);
    }
    if count == MAX_PARTS {
      BlameEnd(TooManyParts, text);
      return Err(TooManyParts);
    }
    parts := parts[count := part];
    r := Ok(Version(parts, count + 1));
  }

  /** What the error says is so of the text. */
  ghost predicate Blames(error: ParseError, text: string) {
    match error
    case Overflow => exists n | 0 <= n <= |text| :: TooLarge(Split(text[..n])[|Split(text[..n])| - 1])
    case EmptyPart => "" in Split(text)
    case TooManyParts => |Split(text)| > MAX_PARTS
    case InvalidCharacter => exists c :: c in text && !IsDigit(c) && c != '.'
  }

  predicate TooLarge(piece: string) {
    AllDigits(piece) && Value(piece) > UNSIGNED_MAX
  }

  /** What is wrong by the `n`-th character is wrong with the text; before that character stood `pieces`. */
  lemma Blame(error: ParseError, text: string, n: nat, pieces: seq<string>, c: char)
    requires 0 < n <= |text| && text[n - 1] == c && pieces == Split(text[..n - 1])
    requires match error
             case Overflow => IsDigit(c) && TooLarge(pieces[|pieces| - 1] + [c])
             case EmptyPart => c == '.' && pieces[|pieces| - 1] == ""
             case TooManyParts => c == '.' && |pieces| > MAX_PARTS
             case InvalidCharacter => !IsDigit(c) && c != '.'
    ensures Blames(error, text)
  {
    hide Split, Value;
    assert text[..n] == text[..n - 1] + [c];
    SplitChar(text[..n - 1], c);
    PieceGrows(text, n);
    var a, b := Split(text[..n]), Split(text);
    if error.EmptyPart? {
      assert b[|pieces| - 1] == b[..|a| - 1][|pieces| - 1] == "";
    }
  }

  lemma BlameEnd(error: ParseError, text: string)
    requires match error
             case EmptyPart => Split(text)[|Split(text)| - 1] == ""
             case TooManyParts => |Split(text)| > MAX_PARTS
             case _ => false
    ensures Blames(error, text)
  {
    hide Split, Value;
  }

  lemma ReadStart()
    ensures Split("") == [""] && Reading([""], [0, 0, 0, 0], 0, 0, false)
  {}

  lemma ReadEnd(text: string, parts: seq<nat>, count: nat, part: nat, hasDigit: bool)
    requires Reading(Split(text), parts, count, part, hasDigit)
    ensures if !hasDigit || count == MAX_PARTS then !Accepts(text)
            else Accepts(text) && Parsed(text) == Version(parts[count := part], count + 1)
  {
    hide Split, Value;
    var pieces := Split(text);
    if !hasDigit {
      assert !GoodPiece(pieces[count]);
    } else if count < MAX_PARTS {
      assert pieces == pieces[..count + 1];
    }
  }

  lemma BadCharacter(pieces: seq<string>, c: char)
    requires pieces != [] && !IsDigit(c)
    ensures Hopeless(Extend(pieces, [c]))
  {
    var n := |pieces| - 1;
    assert (pieces[n] + [c])[|pieces[n]|] == c;
  }

  // ----- The printer -----

  function PrintedPieces(v: Version): (r: seq<string>)
    requires Valid(v)
    ensures |r| == if v.count == 0 then 1 else v.count
    ensures forall k | 0 <= k < |r| :: r[k] == Digits(v.parts[k])
  {
    if v.count == 0 then ["0"] else seq(v.count, k requires 0 <= k < v.count => Digits(v.parts[k]))
  }

  /** Prints the components given; a version without any prints as "0". */
  method ToString(v: Version) returns (text: string)
    requires Valid(v)
    ensures text == Join(PrintedPieces(v))
  {
    if v.count == 0 {
      return "0";
    }
    ghost var pieces := PrintedPieces(v);
    text := Digits(v.parts[0]);
    assert pieces[..1] == [pieces[0]];
    for i := 1 to v.count
      invariant text == Join(pieces[..i])
    {
      assert pieces[..i + 1][..i] == pieces[..i];
      text := text + ".";
      text := text + Digits(v.parts[i]);
    }
    assert pieces[..v.count] == pieces;
  }

  // ----- Each undoes the other -----

  /** Every version prints to a text the parser accepts and reads back as the same components, with the
      same count when any was given. */
  lemma PrintThenParse(v: Version)
    requires Valid(v)
    ensures Accepts(Join(PrintedPieces(v)))
    ensures Parsed(Join(PrintedPieces(v))).parts == v.parts
    ensures Parsed(Join(PrintedPieces(v))).count == if v.count == 0 then 1 else v.count
  {
    hide Split, Join;
    var pieces := PrintedPieces(v);
    forall k | 0 <= k < |pieces| ensures NoDot(pieces[k]) && GoodPiece(pieces[k]) && Value(pieces[k]) == v.parts[k] {
      ValueOfDigits(v.parts[k]);
    }
    SplitJoin(pieces);
    var back := Parsed(Join(pieces)).parts;
    assert forall k | 0 <= k < |pieces| :: back[k] == back[..|pieces|][k] == v.parts[k];
    assert back == v.parts;
  }

  /** Printing what was parsed gives the text back exactly when no component of it has a leading zero. */
  lemma ParseThenPrint(text: string)
    requires Accepts(text)
    ensures Join(PrintedPieces(Parsed(text))) == text <==> forall k | 0 <= k < |Split(text)| ::
            Canonical(Split(text)[k])
  {
    hide Split, Value, Digits, Join;
    var pieces := Split(text);
    var printed := PrintedPieces(Parsed(text));
    JoinSplit(text);
    forall k | 0 <= k < |pieces|
      ensures NoDot(printed[k]) && Canonical(printed[k]) && (Canonical(pieces[k]) ==> printed[k] == pieces[k])
    {
      ValueOfDigits(Value(pieces[k]));
      if Canonical(pieces[k]) {
        DigitsOfValue(pieces[k]);
      }
    }
    SplitJoin(printed);
    if forall k | 0 <= k < |pieces| :: Canonical(pieces[k]) {
      assert printed == pieces;
    }
  }

  /** A text that is accepted and does not come back. */
  lemma LeadingZeroLost()
    ensures Accepts("01") && Join(PrintedPieces(Parsed("01"))) == "1"
  {
    hide Split, Value, Digits;
    LeadingZeroReads();
    assert Split("01") == ["01"] by {
      SplitAppend("", "01");
      ReadStart();
      assert "" + "01" == "01";
    }
    var v := Parsed("01");
    assert v.parts[0] == v.parts[..1][0] == 1;
    assert PrintedPieces(v) == ["1"];
  }

  /** A part is accepted up to the largest 32-bit unsigned and no further. */
  lemma LargestPart(n: nat)
    ensures Accepts(Digits(n)) <==> n <= 4294967295
  {
    hide Value, Digits;
    ValueOfDigits(n);
    assert Split(Digits(n)) == [Digits(n)] by {
      ReadStart();
      SplitAppend("", Digits(n));
      assert "" + Digits(n) == Digits(n);
    }
    assert Split(Digits(n))[0] == Digits(n);
  }

  // ----- The order -----

  /** Lexicographic over the components; how many were given plays no part. */
  predicate Less(a: seq<nat>, b: seq<nat>) {
    |b| > 0 && (|a| == 0 || a[0] < b[0] || (a[0] == b[0] && Less(a[1..], b[1..])))
  }

  /** The same said at one place: `a` is the smaller one, or has ended, where the two first part. */
  ghost predicate Precedes(a: seq<nat>, b: seq<nat>) {
    exists k :: 0 <= k <= |a| && k < |b| && a[..k] == b[..k] && (k == |a| || a[k] < b[k])
  }

  lemma {:induction false} LessIsPrecedes(a: seq<nat>, b: seq<nat>)
    ensures Less(a, b) <==> Precedes(a, b)
  {
    if |a| > 0 && |b| > 0 && a[0] == b[0] {
      LessIsPrecedes(a[1..], b[1..]);
      if Less(a[1..], b[1..]) {
        var k :| 0 <= k <= |a[1..]| && k < |b[1..]| && a[1..][..k] == b[1..][..k]
                 && (k == |a[1..]| || a[1..][k] < b[1..][k]);
        assert a[..k + 1] == [a[0]] + a[1..][..k] && b[..k + 1] == [b[0]] + b[1..][..k];
      }
      if Precedes(a, b) {
        var k :| 0 <= k <= |a| && k < |b| && a[..k] == b[..k] && (k == |a| || a[k] < b[k]);
        assert a[1..][..k - 1] == a[..k][1..] && b[1..][..k - 1] == b[..k][1..];
      }
    } else if |b| > 0 && (|a| == 0 || a[0] < b[0]) {
      assert a[..0] == b[..0];
    } else if |a| > 0 && |b| > 0 {
      forall k | 0 < k <= |a| && k < |b| ensures a[..k] != b[..k] {
        assert a[..k][0] == a[0] && b[..k][0] == b[0];
      }
    }
  }

  /** Of two versions the smaller is the one with the smaller component at the first place they differ in. */
  lemma VersionOrder(v: Version, w: Version)
    requires Valid(v) && Valid(w)
    ensures Less(v.parts, w.parts) <==>
            exists k :: 0 <= k < MAX_PARTS && v.parts[..k] == w.parts[..k] && v.parts[k] < w.parts[k]
  {
    LessIsPrecedes(v.parts, w.parts);
  }

  lemma {:induction false} LessTotal(a: seq<nat>, b: seq<nat>)
    ensures Less(a, b) || a == b || Less(b, a)
    ensures !(Less(a, b) && Less(b, a)) && !Less(a, a)
  {
    if |a| > 0 && |b| > 0 {
      LessTotal(a[1..], b[1..]);
      LessTotal(a[1..], a[1..]);
      assert a == [a[0]] + a[1..] && b == [b[0]] + b[1..];
    } else if |a| > 0 {
      LessTotal(a[1..], a[1..]);
    }
  }

  lemma {:induction false} LessTransitive(a: seq<nat>, b: seq<nat>, c: seq<nat>)
    requires Less(a, b) && Less(b, c)
    ensures Less(a, c)
  {
    if |a| > 0 && a[0] == b[0] == c[0] {
      LessTransitive(a[1..], b[1..], c[1..]);
    }
  }
}
