/** `clean`: the first recognisable classification unit of a raw code.

    The cleaning pattern is built from the strict unit
      `(?:[A-K]|[N-V]|X|Z)[A-Z]?\d{0,3}(?:\/\d{1,3})?a?(?:[.\-=+]\d{1,3}|\(\d{1,3}\)|"\d{1,3}"|<\d{1,3}>)*`
    wrapped as group 1 in optional `[`..`]` and `{`..`}<...>` decorations and
    followed by optional `:`/`+` combinations, and is applied with
    `re.search`; `clean` returns group 1. Everything after group 1 is optional,
    so the first match starts at the first class letter (an optional `{` or
    `[` in front of it changes nothing in group 1) and group 1 is what the
    greedy quantifiers take there, in order, with no backtracking into it.
    That is the scanner below. */
module Cleaner {
  import opened Options
  import opened Strings

  /** A main class letter of the fifth edition: A-K, N-V, X or Z. */
  predicate IsClassLetter(c: char)
  {
    ('A' <= c <= 'K') || ('N' <= c <= 'V') || c == 'X' || c == 'Z'
  }

  predicate IsUpper(c: char)
  {
    'A' <= c <= 'Z'
  }

  /** The characters that join a number to the unit in `[.\-=+]\d{1,3}`. */
  predicate IsJoiner(c: char)
  {
    c == '.' || c == '-' || c == '=' || c == '+'
  }

  /** The characters a unit can be made of. */
  predicate IsUnitChar(c: char)
  {
    || IsUpper(c) || IsDigit(c) || IsJoiner(c) || c == '/' || c == 'a'
    || c == '(' || c == ')' || c == '"' || c == '<' || c == '>'
  }

  /** Index of the first class letter of `t` at or after `i`, if any. */
  function FirstClassLetter(t: string, i: nat): (r: Option<nat>)
    requires i <= |t|
    ensures r.Some? ==> i <= r.value < |t| && IsClassLetter(t[r.value])
    decreases |t| - i
  {
    if i == |t| then None
    else if IsClassLetter(t[i]) then Some(i)
    else FirstClassLetter(t, i + 1)
  }

  /** There is no class letter before the one found, and none at all when
      none is found. */
  lemma {:induction false} FirstClassLetterFirst(t: string, i: nat)
    requires i <= |t|
    ensures var r := FirstClassLetter(t, i);
      forall k :: i <= k < (if r.Some? then r.value else |t|) ==> !IsClassLetter(t[k])
    decreases |t| - i
  {
    if i < |t| && !IsClassLetter(t[i]) {
      FirstClassLetterFirst(t, i + 1);
    }
  }

  /** What `\d{1,3}` or `\d{0,3}` takes at `p`: up to three digits. */
  function Upto3(t: string, p: nat): (n: nat)
    requires p <= |t|
    ensures n <= 3 && p + n <= |t|
  {
    Min(3, DigitRun(t, p))
  }

  /** `[A-Z]?` after the class letter. */
  function SecondLetter(t: string, p: nat): (q: nat)
    requires p <= |t|
    ensures p <= q <= |t|
  {
    if p < |t| && IsUpper(t[p]) then p + 1 else p
  }

  /** `\d{0,3}`. */
  function ClassDigits(t: string, p: nat): (q: nat)
    requires p <= |t|
    ensures p <= q <= |t|
  {
    p + Upto3(t, p)
  }

  /** `(?:\/\d{1,3})?`: a slash counts only with a digit after it. */
  function SlashPart(t: string, p: nat): (q: nat)
    requires p <= |t|
    ensures p <= q <= |t|
  {
    if p < |t| && t[p] == '/' && Upto3(t, p + 1) >= 1 then p + 1 + Upto3(t, p + 1) else p
  }

  /** `a?`. */
  function MarkA(t: string, p: nat): (q: nat)
    requires p <= |t|
    ensures p <= q <= |t|
  {
    if p < |t| && t[p] == 'a' then p + 1 else p
  }

  /** `\(\d{1,3}\)`, `"\d{1,3}"` or `<\d{1,3}>` opened by `open` at `p`: the
      digits are at most three and the closing character follows them
      (fewer digits would leave a digit where the closer must be). */
  function Enclosed(t: string, p: nat, close: char): (n: nat)
    requires p < |t|
    ensures n == 0 || (3 <= n <= 5 && p + n <= |t|)
  {
    var d := DigitRun(t, p + 1);
    if 1 <= d <= 3 && p + 1 + d < |t| && t[p + 1 + d] == close then d + 2 else 0
  }

  /** Length of one decoration at `p`, or 0 when none starts there. */
  function DecorLen(t: string, p: nat): (n: nat)
    requires p <= |t|
    ensures p + n <= |t|
  {
    if p == |t| then 0
    else if IsJoiner(t[p]) then (if Upto3(t, p + 1) >= 1 then 1 + Upto3(t, p + 1) else 0)
    else if t[p] == '(' then Enclosed(t, p, ')')
    else if t[p] == '"' then Enclosed(t, p, '"')
    else if t[p] == '<' then Enclosed(t, p, '>')
    else 0
  }

  /** The `(...)*` loop of decorations: as many as follow one another. */
  function Decorations(t: string, p: nat): (q: nat)
    requires p <= |t|
    ensures p <= q <= |t|
    decreases |t| - p
  {
    var n := DecorLen(t, p);
    if n == 0 then p else Decorations(t, p + n)
  }

  /** Where the part of group 1 before its decorations ends when group 1
      starts at the class letter at `j`. */
  function HeadEnd(t: string, j: nat): (q: nat)
    requires j < |t|
    ensures j < q <= |t|
  {
    MarkA(t, SlashPart(t, ClassDigits(t, SecondLetter(t, j + 1))))
  }

  /** Where group 1 ends when it starts at the class letter at `j`. */
  function UnitEnd(t: string, j: nat): (e: nat)
    requires j < |t|
    ensures j < e <= |t|
  {
    Decorations(t, HeadEnd(t, j))
  }

  /** Group 1 of the first match of the cleaning pattern in `t`, or '' when
      there is none. */
  function FirstUnit(t: string): (r: string)
    ensures r == [] <==> FirstClassLetter(t, 0).None?
    ensures r != [] ==> var j := FirstClassLetter(t, 0).value;
                        j + |r| <= |t| && r == t[j..j + |r|] && IsClassLetter(r[0])
  {
    match FirstClassLetter(t, 0)
    case None => []
    case Some(j) => t[j..UnitEnd(t, j)]
  }

  /** `clean(s)`: the first unit of the stripped string. */
  function Clean(s: string): (r: string)
    ensures r == [] <==> FirstClassLetter(Strip(s), 0).None?
    ensures r != [] ==> var t := Strip(s); var j := FirstClassLetter(t, 0).value;
                        j + |r| <= |t| && r == t[j..j + |r|] && IsClassLetter(r[0])
  {
    FirstUnit(Strip(s))
  }

  // ---------------------------------------------------------------------------
  // What clean returns
  // ---------------------------------------------------------------------------

  /** The first unit is '' exactly when `t` holds no class letter; otherwise
      it is a piece of `t` that starts at the first class letter. */
  lemma {:induction false} FirstUnitMeaning(t: string)
    ensures FirstUnit(t) == [] <==> forall k :: 0 <= k < |t| ==> !IsClassLetter(t[k])
    ensures var r := FirstUnit(t);
      r != [] ==> exists j: nat :: && j + |r| <= |t| && r == t[j..j + |r|]
                              && IsClassLetter(t[j])
                              && forall k :: 0 <= k < j ==> !IsClassLetter(t[k])
  {
    FirstClassLetterFirst(t, 0);
    if FirstUnit(t) != [] {
      var j := FirstClassLetter(t, 0).value;
      assert t[j] == FirstUnit(t)[0];
    }
  }

  /** `clean(s)` is '' exactly when the stripped input holds no class letter. */
  lemma {:induction false} CleanEmpty(s: string)
    ensures var t := Strip(s);
      Clean(s) == [] <==> forall k :: 0 <= k < |t| ==> !IsClassLetter(t[k])
  {
    FirstClassLetterFirst(Strip(s), 0);
  }

  /** Every character of a unit is a unit character, so in particular no
      bracket, brace, colon or whitespace survives cleaning. */
  lemma {:induction false} UnitChars(t: string, j: nat)
    requires j < |t| && IsClassLetter(t[j])
    ensures forall k :: j <= k < UnitEnd(t, j) ==> IsUnitChar(t[k])
  {
    var p1 := SecondLetter(t, j + 1);
    var p2 := ClassDigits(t, p1);
    var p3 := SlashPart(t, p2);
    var p4 := MarkA(t, p3);
    ClassDigitsChars(t, p1);
    SlashPartChars(t, p2);
    DecorationsChars(t, p4);
  }

  lemma {:induction false} ClassDigitsChars(t: string, p: nat)
    requires p <= |t|
    ensures forall k :: p <= k < ClassDigits(t, p) ==> IsUnitChar(t[k])
  {
    DigitRunMaximal(t, p);
  }

  lemma {:induction false} SlashPartChars(t: string, p: nat)
    requires p <= |t|
    ensures forall k :: p <= k < SlashPart(t, p) ==> IsUnitChar(t[k])
  {
    if SlashPart(t, p) > p {
      DigitRunMaximal(t, p + 1);
    }
  }

  lemma {:induction false} DecorationsChars(t: string, p: nat)
    requires p <= |t|
    ensures forall k :: p <= k < Decorations(t, p) ==> IsUnitChar(t[k])
    decreases |t| - p
  {
    var n := DecorLen(t, p);
    if n > 0 {
      DecorLenChars(t, p);
      DecorationsChars(t, p + n);
    }
  }

  lemma {:induction false} DecorLenChars(t: string, p: nat)
    requires p <= |t|
    ensures forall k :: p <= k < p + DecorLen(t, p) ==> IsUnitChar(t[k])
  {
    if p < |t| {
      DigitRunMaximal(t, p + 1);
    }
  }

  /** The cleaned code holds unit characters only. */
  lemma {:induction false} CleanChars(s: string)
    ensures forall k :: 0 <= k < |Clean(s)| ==> IsUnitChar(Clean(s)[k])
  {
    var t := Strip(s);
    if FirstClassLetter(t, 0).Some? {
      var j := FirstClassLetter(t, 0).value;
      UnitChars(t, j);
      assert Clean(s) == t[j..UnitEnd(t, j)];
    }
  }

  // ---------------------------------------------------------------------------
  // Cleaning is idempotent
  // ---------------------------------------------------------------------------

  /** A digit run read inside the window `t[j..e]` is the run of `t` cut at
      the window's end. */
  lemma {:induction false} DigitRunWindow(t: string, j: nat, e: nat, q: nat)
    requires j <= q <= e <= |t|
    ensures DigitRun(t[j..e], q - j) == Min(DigitRun(t, q), e - q)
    decreases e - q
  {
    if q < e && IsDigit(t[q]) {
      DigitRunWindow(t, j, e, q + 1);
    }
  }

  lemma {:induction false} Upto3Window(t: string, j: nat, e: nat, q: nat)
    requires j <= q <= e <= |t|
    ensures Upto3(t[j..e], q - j) == Min(Upto3(t, q), e - q)
  {
    DigitRunWindow(t, j, e, q);
  }

  /** Each step of the scanner that ends inside the window takes the same
      characters when it reads the window only. */
  lemma {:induction false} SecondLetterWindow(t: string, j: nat, e: nat, p: nat)
    requires j <= p <= e <= |t| && SecondLetter(t, p) <= e
    ensures SecondLetter(t[j..e], p - j) == SecondLetter(t, p) - j
  {
  }

  lemma {:induction false} ClassDigitsWindow(t: string, j: nat, e: nat, p: nat)
    requires j <= p <= e <= |t| && ClassDigits(t, p) <= e
    ensures ClassDigits(t[j..e], p - j) == ClassDigits(t, p) - j
  {
    Upto3Window(t, j, e, p);
  }

  lemma {:induction false} MarkAWindow(t: string, j: nat, e: nat, p: nat)
    requires j <= p <= e <= |t| && MarkA(t, p) <= e
    ensures MarkA(t[j..e], p - j) == MarkA(t, p) - j
  {
  }

  lemma {:induction false} SlashPartWindow(t: string, j: nat, e: nat, p: nat)
    requires j <= p <= e <= |t|
    requires SlashPart(t, p) <= e
    ensures SlashPart(t[j..e], p - j) == SlashPart(t, p) - j
  {
    if p < e {
      Upto3Window(t, j, e, p + 1);
    }
  }

  lemma {:induction false} DecorLenWindow(t: string, j: nat, e: nat, p: nat)
    requires j <= p < e <= |t|
    requires 0 < DecorLen(t, p) && p + DecorLen(t, p) <= e
    ensures DecorLen(t[j..e], p - j) == DecorLen(t, p)
  {
    DigitRunWindow(t, j, e, p + 1);
  }

  lemma {:induction false} DecorationsWindow(t: string, j: nat, e: nat, p: nat)
    requires j <= p <= e <= |t|
    requires Decorations(t, p) == e
    ensures Decorations(t[j..e], p - j) == e - j
  {
    var w := t[j..e];
    assert |w| == e - j;
    DecorLensWindow(t, j, e);
    DecorationsIn(t, w, j, p);
  }

  /** Every decoration of `t` that lies inside the window `t[j..e]` is a
      decoration of the window as well. */
  lemma DecorLensWindow(t: string, j: nat, e: nat)
    requires j <= e <= |t|
    ensures forall i :: (j <= i < e && 0 < DecorLen(t, i) && i + DecorLen(t, i) <= e ==>
      DecorLen(t[j..e], i - j) == DecorLen(t, i))
  {
    forall i | j <= i < e && 0 < DecorLen(t, i) && i + DecorLen(t, i) <= e
      ensures DecorLen(t[j..e], i - j) == DecorLen(t, i)
    {
      DecorLenWindow(t, j, e, i);
    }
  }

  /** `DecorationsWindow` for a window `w` that starts at `j`, from the
      position `p` of `t`, given that the decorations of `t` inside the
      window are decorations of `w`. */
  lemma {:induction false} DecorationsIn(t: string, w: string, j: nat, p: nat)
    requires j <= p <= j + |w| <= |t|
    requires forall i :: (j <= i < j + |w| && 0 < DecorLen(t, i) && i + DecorLen(t, i) <= j + |w| ==>
      DecorLen(w, i - j) == DecorLen(t, i))
    requires Decorations(t, p) == j + |w|
    ensures Decorations(w, p - j) == |w|
    decreases j + |w| - p
  {
    var n := DecorLen(t, p);
    DecorationsStep(t, p, w, p - j);
    if n > 0 {
      DecorationsIn(t, w, j, p + n);
    }
  }

  /** Where `w` at `q` starts with the decoration that `t` has at `p`, the
      decorations of `w` at `q` run on as those of `t` after it; where none
      starts in `t`, none starts in `w` and both end there. */
  lemma DecorationsStep(t: string, p: nat, w: string, q: nat)
    requires p <= |t| && q <= |w|
    requires Decorations(t, p) == p + (|w| - q)
    requires DecorLen(t, p) > 0 ==> DecorLen(w, q) == DecorLen(t, p)
    ensures DecorLen(t, p) == 0 ==> Decorations(w, q) == |w|
    ensures DecorLen(t, p) > 0 ==> q + DecorLen(t, p) <= |w|
    ensures DecorLen(t, p) > 0 ==> Decorations(t, p + DecorLen(t, p)) == p + (|w| - q)
    ensures DecorLen(t, p) > 0 ==> Decorations(w, q) == Decorations(w, q + DecorLen(t, p))
  {
  }

  /** The head of the unit found at `j`, scanned again on a window that
      contains it, ends at the same place. */
  lemma {:induction false} HeadEndWindow(t: string, j: nat, e: nat)
    requires j < |t| && HeadEnd(t, j) <= e <= |t|
    ensures HeadEnd(t[j..e], 0) == HeadEnd(t, j) - j
  {
    var u := t[j..e];
    var p1 := SecondLetter(t, j + 1);
    var p2 := ClassDigits(t, p1);
    var p3 := SlashPart(t, p2);
    SecondLetterWindow(t, j, e, j + 1);
    ClassDigitsWindow(t, j, e, p1);
    SlashPartWindow(t, j, e, p2);
    MarkAWindow(t, j, e, p3);
  }

  /** Scanning the unit found at `j` again, on the unit alone, ends at the
      unit's end. */
  lemma {:induction false} UnitEndWindow(t: string, j: nat)
    requires j < |t|
    ensures UnitEnd(t[j..UnitEnd(t, j)], 0) == UnitEnd(t, j) - j
  {
    var e := UnitEnd(t, j);
    HeadEndWindow(t, j, e);
    DecorationsWindow(t, j, e, HeadEnd(t, j));
  }

  /** The first unit of a first unit is itself. */
  lemma {:induction false} FirstUnitIdempotent(t: string)
    ensures FirstUnit(FirstUnit(t)) == FirstUnit(t)
  {
    var r := FirstUnit(t);
    if r != [] {
      var j := FirstClassLetter(t, 0).value;
      UnitEndWindow(t, j);
      assert FirstClassLetter(r, 0) == Some(0);
    }
  }

  /** `clean(clean(s)) == clean(s)`: a cleaned code is already clean. */
  lemma {:induction false} CleanIdempotent(s: string)
    ensures Clean(Clean(s)) == Clean(s)
  {
    var r := Clean(s);
    if r != [] {
      CleanChars(s);
      UnitCharNotSpace(r[0]);
      UnitCharNotSpace(r[|r| - 1]);
      StripUnchanged(r);
      FirstUnitIdempotent(Strip(s));
    }
  }

  lemma UnitCharNotSpace(c: char)
    requires IsUnitChar(c)
    ensures !IsSpace(c)
  {
  }

  // ---------------------------------------------------------------------------
  // Examples
  // ---------------------------------------------------------------------------

  /** `clean` of an unpadded string whose first class letter is at `j`. */
  lemma CleanAt(s: string, j: nat, e: nat, r: string)
    requires Strip(s) == s && j < |s| && FirstClassLetter(s, 0) == Some(j) && UnitEnd(s, j) == e
    requires s[j..e] == r
    ensures Clean(s) == r
  {
  }

  lemma BracedHead()
    ensures HeadEnd("{D922.59}", 1) == 5
  {
    var s := "{D922.59}";
    assert SecondLetter(s, 2) == 2;
    assert DigitRun(s, 5) == 0;
    assert DigitRun(s, 2) == 3;
  }

  lemma BracedDecor()
    ensures Decorations("{D922.59}", 5) == 8
  {
    assert DecorLen("{D922.59}", 5) == 3;
    assert DecorLen("{D922.59}", 8) == 0;
  }

  /** A code in braces, from the module's own examples. */
  lemma ExampleBraced()
    ensures Clean("{D922.59}") == "D922.59"
  {
    var s := "{D922.59}";
    assert s[1..8] == "D922.59";
    StripUnchanged(s);
    assert FirstClassLetter(s, 0) == Some(1);
    BracedHead();
    BracedDecor();
    CleanAt(s, 1, 8, "D922.59");
  }

  lemma CompoundHead()
    ensures HeadEnd("K837.125.6(202)+R173:G25a", 0) == 4
  {
    var s := "K837.125.6(202)+R173:G25a";
    assert SecondLetter(s, 1) == 1;
    assert DigitRun(s, 4) == 0;
    assert DigitRun(s, 1) == 3;
  }

  lemma CompoundDecor()
    ensures Decorations("K837.125.6(202)+R173:G25a", 4) == 15
  {
    var s := "K837.125.6(202)+R173:G25a";
    CompoundJoined();
    CompoundBracketed();
    assert Decorations(s, 15) == 15;
    assert Decorations(s, 10) == 15;
  }

  lemma CompoundJoined()
    ensures DecorLen("K837.125.6(202)+R173:G25a", 4) == 4
    ensures DecorLen("K837.125.6(202)+R173:G25a", 8) == 2
  {
    var s := "K837.125.6(202)+R173:G25a";
    assert DigitRun(s, 8) == 0;
  }

  lemma CompoundBracketed()
    ensures DecorLen("K837.125.6(202)+R173:G25a", 10) == 5
    ensures DecorLen("K837.125.6(202)+R173:G25a", 15) == 0
  {
    var s := "K837.125.6(202)+R173:G25a";
    assert DigitRun(s, 14) == 0;
  }

  /** A compound code: the first unit keeps its bracketed decoration and
      stops at the `+` that joins the next unit. */
  lemma ExampleCompound()
    ensures Clean("K837.125.6(202)+R173:G25a") == "K837.125.6(202)"
  {
    var s := "K837.125.6(202)+R173:G25a";
    assert s[0..15] == "K837.125.6(202)";
    StripUnchanged(s);
    assert FirstClassLetter(s, 0) == Some(0);
    CompoundHead();
    CompoundDecor();
    CleanAt(s, 0, 15, "K837.125.6(202)");
  }
}
