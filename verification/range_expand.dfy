/** The range expander: one taxonomy token such as `X922.3/.7`, `T-013/-017`
    or `Z813/817` becomes the list of concrete codes it stands for.

    The three range shapes are the regular expressions
      `^(.+?)\.(\d+)\/\.(\d+)(.*?)$`   (dot shape),
      `^(.+?)[\-](\d+)\/[\-](\d+)(.*?)$` (hyphen shape),
      `^(.+?)(\d+)\/(\d+)(.*?)$`        (bare shape),
    applied with `re.match`. They are decomposed by hand here: the lazy prefix
    is the shortest one for which the rest fits, each `\d+` takes the maximal
    digit run (a shorter run would be followed by a digit, not by `/` or by
    anything the rest could still match), `.` does not match a newline and `$`
    matches at the end or before a final newline. */
module RangeExpand {
  import opened Options
  import opened Strings

  /** The captured groups of a range shape: prefix, both bounds read with
      `int()`, and the postfix. */
  datatype Range = Range(prefix: string, start: nat, end: nat, postfix: string)

  /** `s.replace('[', '').replace(']', '').replace('{', '').replace('}', '')`. */
  function StripBrackets(s: string): string
  {
    ReplaceChar(ReplaceChar(ReplaceChar(ReplaceChar(s, '[', ""), ']', ""), '{', ""), '}', "")
  }

  /** Stripping keeps exactly the characters that are not brackets. */
  lemma StripBracketsChars(s: string, c: char)
    ensures c in StripBrackets(s) <==> c in s && c !in "[]{}"
  {
    var a := ReplaceChar(s, '[', "");
    var b := ReplaceChar(a, ']', "");
    var d := ReplaceChar(b, '{', "");
    assert '[' !in a && ']' !in b && '{' !in d;
  }

  /** A token without brackets is left as it is. */
  lemma StripBracketsPlain(s: string)
    requires '[' !in s && ']' !in s && '{' !in s && '}' !in s
    ensures StripBrackets(s) == s
  {
  }

  /** The separator of a range shape: `.` for `X922.3/.7`, `-` for
      `T-013/-017` and nothing for `Z813/817`. */
  datatype Sep = Dot | Hyphen | Bare

  /** The separator as it is written back between prefix and number. */
  function SepText(sep: Sep): (t: string)
    ensures |t| <= 1 && (|t| == 0 <==> sep == Bare)
    ensures forall c :: c in t ==> c == '.' || c == '-'
  {
    match sep
    case Dot => "."
    case Hyphen => "-"
    case Bare => ""
  }

  /** The separator occurs at index `i` of `s`. */
  predicate SepAt(s: string, i: nat, sep: Sep)
  {
    match sep
    case Dot => i < |s| && s[i] == '.'
    case Hyphen => i < |s| && s[i] == '-'
    case Bare => i <= |s|
  }

  /** Some character of `s[lo..hi]` is a newline. */
  predicate NewlineIn(s: string, lo: nat, hi: nat)
    requires lo <= hi <= |s|
    decreases hi - lo
  {
    lo < hi && (s[lo] == '\n' || NewlineIn(s, lo + 1, hi))
  }

  /** Every character of `s[lo..hi]` is a digit. */
  predicate DigitsIn(s: string, lo: nat, hi: nat)
    decreases hi - lo
  {
    lo <= hi <= |s| && (lo == hi || (IsDigit(s[hi - 1]) && DigitsIn(s, lo, hi - 1)))
  }

  lemma {:induction false} NewlineInMeaning(s: string, lo: nat, hi: nat)
    requires lo <= hi <= |s|
    ensures NewlineIn(s, lo, hi) <==> '\n' in s[lo..hi]
    decreases hi - lo
  {
    if lo < hi {
      NewlineInMeaning(s, lo + 1, hi);
      assert s[lo..hi] == [s[lo]] + s[lo + 1..hi];
    }
  }

  lemma {:induction false} DigitsInMeaning(s: string, lo: nat, hi: nat)
    requires lo <= hi <= |s|
    ensures DigitsIn(s, lo, hi) <==> forall k :: lo <= k < hi ==> IsDigit(s[k])
    decreases hi - lo
  {
    if lo < hi {
      DigitsInMeaning(s, lo, hi - 1);
    }
  }

  /** `int(s[lo:hi])` for a run of digits, read left to right. */
  function NumberAt(s: string, lo: nat, hi: nat): nat
    requires DigitsIn(s, lo, hi)
    decreases hi - lo
  {
    if lo == hi then 0 else 10 * NumberAt(s, lo, hi - 1) + DigitValue(s[hi - 1])
  }

  /** The digit run read in place is Python's `int` of the captured group. */
  lemma {:induction false} NumberAtIsDecimal(s: string, lo: nat, hi: nat)
    requires DigitsIn(s, lo, hi)
    ensures AllDigits(s[lo..hi]) && NumberAt(s, lo, hi) == DecimalValue(s[lo..hi])
    decreases hi - lo
  {
    DigitsInMeaning(s, lo, hi);
    if lo < hi {
      NumberAtIsDecimal(s, lo, hi - 1);
      assert s[lo..hi][..hi - lo - 1] == s[lo..hi - 1];
    }
  }

  /** `(.*?)$` matches `s[e..]`: `.` does not match a newline, and `$`
      matches at the end or before a final newline. */
  predicate PostfixOk(s: string, e: nat)
    requires e <= |s|
  {
    !NewlineIn(s, e, |s|) || (s[|s| - 1] == '\n' && !NewlineIn(s, e, |s| - 1))
  }

  /** What `(.*?)$` captures from `s[e..]`: all of it when it holds no
      newline, all but a final newline otherwise. */
  function PostfixFrom(s: string, e: nat): (r: Option<string>)
    requires e <= |s|
    ensures r.Some? <==> PostfixOk(s, e)
  {
    if !NewlineIn(s, e, |s|) then Some(s[e..])
    else if s[|s| - 1] == '\n' && !NewlineIn(s, e, |s| - 1) then Some(s[e..|s| - 1])
    else None
  }

  /** The captured postfix holds no newline and is the rest of the token,
      less a final newline if there is one. */
  lemma PostfixFromMeaning(s: string, e: nat)
    requires e <= |s| && PostfixFrom(s, e).Some?
    ensures var post := PostfixFrom(s, e).value;
      '\n' !in post && (s[e..] == post || s[e..] == post + "\n")
  {
    if NewlineIn(s, e, |s|) {
      NewlineInMeaning(s, e, |s| - 1);
      assert s[e..] == s[e..|s| - 1] + "\n";
    } else {
      NewlineInMeaning(s, e, |s|);
    }
  }

  /** Where a range shape fits: prefix length `p` and the lengths of the
      two digit runs. */
  datatype Hit = Hit(p: nat, n1: nat, n2: nat)

  /** `s` reads as a range shape laid out as `h`: prefix, separator, `n1`
      digits (the start), `/`, separator, `n2` digits (the end) not followed
      by a further digit, then a rest that `(.*?)$` accepts; the prefix is
      non-empty and holds no newline. */
  predicate Shaped(s: string, sep: Sep, h: Hit)
  {
    var q := h.p + |SepText(sep)|;
    var slash := q + h.n1;
    var q2 := slash + 1 + |SepText(sep)|;
    var e := q2 + h.n2;
    && 1 <= h.p && e <= |s|
    && !NewlineIn(s, 0, h.p)
    && SepAt(s, h.p, sep) && 1 <= h.n1 && DigitsIn(s, q, slash) && s[slash] == '/'
    && SepAt(s, slash + 1, sep) && 1 <= h.n2 && DigitsIn(s, q2, e) && (e == |s| || !IsDigit(s[e]))
    && PostfixOk(s, e)
  }

  /** The groups the shape captures: prefix, both bounds read with `int()`,
      and the postfix. */
  function Groups(s: string, sep: Sep, h: Hit): Range
    requires Shaped(s, sep, h)
  {
    var q := h.p + |SepText(sep)|;
    var q2 := q + h.n1 + 1 + |SepText(sep)|;
    Range(s[..h.p], NumberAt(s, q, q + h.n1), NumberAt(s, q2, q2 + h.n2), PostfixFrom(s, q2 + h.n2).value)
  }

  /** The start bound is `int()` of the first digit run. */
  lemma GroupsStart(s: string, sep: Sep, h: Hit)
    requires Shaped(s, sep, h)
    ensures var q := h.p + |SepText(sep)|;
      AllDigits(s[q..q + h.n1]) && Groups(s, sep, h).start == DecimalValue(s[q..q + h.n1])
  {
    var q := h.p + |SepText(sep)|;
    NumberAtIsDecimal(s, q, q + h.n1);
  }

  /** The end bound is `int()` of the second digit run. */
  lemma GroupsEnd(s: string, sep: Sep, h: Hit)
    requires Shaped(s, sep, h)
    ensures var q2 := h.p + |SepText(sep)| + h.n1 + 1 + |SepText(sep)|;
      AllDigits(s[q2..q2 + h.n2]) && Groups(s, sep, h).end == DecimalValue(s[q2..q2 + h.n2])
  {
    var q2 := h.p + |SepText(sep)| + h.n1 + 1 + |SepText(sep)|;
    NumberAtIsDecimal(s, q2, q2 + h.n2);
  }

  /** The groups account for the token: the prefix, the separator, the start
      digits, `/`, the separator and the end digits put back together give
      the token up to where the postfix begins (`PostfixFromMeaning` covers
      the rest). */
  lemma GroupsRebuild(s: string, sep: Sep, h: Hit)
    requires Shaped(s, sep, h)
    ensures var q := h.p + |SepText(sep)|;
      var q2 := q + h.n1 + 1 + |SepText(sep)|;
      var e := q2 + h.n2;
      s[..e] == Groups(s, sep, h).prefix + SepText(sep) + s[q..q + h.n1] + "/" + SepText(sep) + s[q2..e]
  {
    var t := SepText(sep);
    var q := h.p + |t|;
    var slash := q + h.n1;
    var q2 := slash + 1 + |t|;
    var e := q2 + h.n2;
    SepSlice(s, h.p, sep);
    SepSlice(s, slash + 1, sep);
    assert s[slash] == '/';
    Reassemble(s, h.p, q, slash, q2, e, t);
  }

  lemma SepSlice(s: string, i: nat, sep: Sep)
    requires SepAt(s, i, sep) && i + |SepText(sep)| <= |s|
    ensures s[i..i + |SepText(sep)|] == SepText(sep)
  {
  }

  lemma Reassemble(s: string, p: nat, q: nat, slash: nat, q2: nat, e: nat, t: string)
    requires p <= q <= slash < q2 <= e <= |s|
    requires s[p..q] == t && s[slash] == '/' && s[slash + 1..q2] == t
    ensures s[..e] == s[..p] + t + s[q..slash] + "/" + t + s[q2..e]
  {
    assert s[..e] == s[..p] + s[p..q] + s[q..slash] + [s[slash]] + s[slash + 1..q2] + s[q2..e];
  }

  /** The range shape with separator `sep` when the lazy prefix is exactly
      `s[..p]`: both `\d+` are greedy, so the only candidate layout takes the
      maximal digit runs after each separator. */
  function ShapeAt(s: string, sep: Sep, p: nat): (r: Option<Hit>)
    requires 1 <= p
    ensures r.Some? ==> r.value.p == p
  {
    var q := p + |SepText(sep)|;
    var n1 := if q <= |s| then DigitRun(s, q) else 0;
    var q2 := q + n1 + 1 + |SepText(sep)|;
    var n2 := if q2 <= |s| then DigitRun(s, q2) else 0;
    if Shaped(s, sep, Hit(p, n1, n2)) then Some(Hit(p, n1, n2)) else None
  }

  /** A fit of a shape lays the token out as that shape. */
  lemma ShapeAtShaped(s: string, sep: Sep, p: nat)
    requires 1 <= p && ShapeAt(s, sep, p).Some?
    ensures Shaped(s, sep, ShapeAt(s, sep, p).value)
  {
  }

  /** Conversely, a token laid out as a shape fits it with that prefix. */
  lemma ShapeAtIntro(s: string, sep: Sep, h: Hit)
    requires Shaped(s, sep, h)
    ensures ShapeAt(s, sep, h.p) == Some(h)
  {
    ShapedRuns(s, sep, h);
  }

  /** The digit runs of a layout are the greedy ones. */
  lemma ShapedRuns(s: string, sep: Sep, h: Hit)
    requires Shaped(s, sep, h)
    ensures var q := h.p + |SepText(sep)|;
      && DigitRun(s, q) == h.n1
      && DigitRun(s, q + h.n1 + 1 + |SepText(sep)|) == h.n2
  {
    var q := h.p + |SepText(sep)|;
    DigitRunExact(s, q, h.n1);
    DigitRunExact(s, q + h.n1 + 1 + |SepText(sep)|, h.n2);
  }

  /** The greedy digit run at `i` is exactly `n` long when `n` digits follow
      `i` and then a non-digit or the end. */
  lemma {:induction false} DigitRunExact(s: string, i: nat, n: nat)
    requires DigitsIn(s, i, i + n)
    requires i + n == |s| || !IsDigit(s[i + n])
    ensures DigitRun(s, i) == n
  {
    DigitsInMeaning(s, i, i + n);
    DigitRunFrom(s, i, n);
  }

  lemma {:induction false} DigitRunFrom(s: string, i: nat, n: nat)
    requires i + n <= |s|
    requires forall k :: i <= k < i + n ==> IsDigit(s[k])
    requires i + n == |s| || !IsDigit(s[i + n])
    ensures DigitRun(s, i) == n
    decreases n
  {
    if n > 0 {
      DigitRunFrom(s, i + 1, n - 1);
    }
  }

  /** `re.match` of a range shape: the first prefix length, from `p` on, at
      which the shape fits. */
  function FindShape(s: string, sep: Sep, p: nat): (r: Option<nat>)
    requires 1 <= p
    ensures r.Some? ==> p <= r.value <= |s| && ShapeAt(s, sep, r.value).Some?
    decreases |s| + 1 - p
  {
    if p > |s| then None
    else if ShapeAt(s, sep, p).Some? then Some(p)
    else FindShape(s, sep, p + 1)
  }

  /** `FindShape` finds the first fit: nothing fits between `p` and it. */
  lemma {:induction false} FindShapeFirst(s: string, sep: Sep, p: nat)
    requires 1 <= p && FindShape(s, sep, p).Some?
    ensures forall q :: p <= q < FindShape(s, sep, p).value ==> ShapeAt(s, sep, q).None?
    decreases |s| + 1 - p
  {
    if ShapeAt(s, sep, p).None? {
      FindShapeFirst(s, sep, p + 1);
      NoShapeBetween(s, sep, p, FindShape(s, sep, p + 1).value);
    }
  }

  /** When `FindShape` finds no fit, nothing fits from `p` on. */
  lemma {:induction false} FindShapeNone(s: string, sep: Sep, p: nat)
    requires 1 <= p && FindShape(s, sep, p).None?
    ensures forall q :: p <= q ==> ShapeAt(s, sep, q).None?
    decreases |s| + 1 - p
  {
    if p > |s| {
      NoShapeBeyond(s, sep, p);
    } else {
      FindShapeNone(s, sep, p + 1);
      NoShapeFrom(s, sep, p);
    }
  }

  lemma NoShapeFrom(s: string, sep: Sep, p: nat)
    requires 1 <= p && ShapeAt(s, sep, p).None?
    requires forall q :: p + 1 <= q ==> ShapeAt(s, sep, q).None?
    ensures forall q :: p <= q ==> ShapeAt(s, sep, q).None?
  {
  }

  lemma NoShapeBetween(s: string, sep: Sep, p: nat, r: nat)
    requires 1 <= p && ShapeAt(s, sep, p).None?
    requires forall q :: p + 1 <= q < r ==> ShapeAt(s, sep, q).None?
    ensures forall q :: p <= q < r ==> ShapeAt(s, sep, q).None?
  {
  }

  /** No shape fits with a prefix longer than the token. */
  lemma NoShapeBeyond(s: string, sep: Sep, p: nat)
    requires p > |s|
    ensures forall q :: p <= q ==> ShapeAt(s, sep, q).None?
  {
  }

  /** Where `re.match` finds a shape, if anywhere: the fit with the shortest
      prefix. */
  function MatchShape(s: string, sep: Sep): (r: Option<Hit>)
    ensures r.None? <==> forall p :: 1 <= p ==> ShapeAt(s, sep, p).None?
    ensures r.Some? ==> 1 <= r.value.p && ShapeAt(s, sep, r.value.p) == r
    ensures r.Some? ==> forall q :: 1 <= q < r.value.p ==> ShapeAt(s, sep, q).None?
  {
    match FindShape(s, sep, 1)
    case None => FindShapeNone(s, sep, 1); None
    case Some(p) => FindShapeFirst(s, sep, 1); ShapeAt(s, sep, p)
  }

  /** `r` lists the codes of range `g`, ascending:
      `[f"{prefix}{sep}{i}{postfix}" for i in range(start, end + 1)]`. */
  predicate IsEnumeration(r: seq<string>, g: Range, sep: Sep)
  {
    && |r| == (if g.start <= g.end then g.end - g.start + 1 else 0)
    && forall i :: 0 <= i < |r| ==> r[i] == g.prefix + SepText(sep) + NatToString(g.start + i) + g.postfix
  }

  function Enumerate(g: Range, sep: Sep): (r: seq<string>)
    ensures IsEnumeration(r, g, sep)
  {
    EnumerateFrom(g, sep, g.start)
  }

  function EnumerateFrom(g: Range, sep: Sep, i: nat): (r: seq<string>)
    ensures |r| == if i <= g.end then g.end - i + 1 else 0
    ensures forall k :: 0 <= k < |r| ==> r[k] == g.prefix + SepText(sep) + NatToString(i + k) + g.postfix
    decreases g.end + 1 - i
  {
    if i > g.end then []
    else [g.prefix + SepText(sep) + NatToString(i) + g.postfix] + EnumerateFrom(g, sep, i + 1)
  }

  /** The codes a shape's match stands for, or `None` if it does not match. */
  function ExpandShape(t: string, sep: Sep): (r: Option<seq<string>>)
    ensures r.None? <==> MatchShape(t, sep).None?
    ensures r.Some? ==> && Shaped(t, sep, MatchShape(t, sep).value)
                        && IsEnumeration(r.value, Groups(t, sep, MatchShape(t, sep).value), sep)
  {
    match MatchShape(t, sep)
    case None => None
    case Some(h) =>
      ShapeAtShaped(t, sep, h.p);
      Some(Enumerate(Groups(t, sep, h), sep))
  }

  /** `parse_clc_code_str`: the dot, hyphen and bare shapes are tried in that
      order on the bracket-free token; a token of none of them stands for
      itself. */
  function Expand(s: string): (r: seq<string>)
    ensures var t := StripBrackets(s);
      && (ExpandShape(t, Dot).Some? ==> r == ExpandShape(t, Dot).value)
      && (ExpandShape(t, Dot).None? && ExpandShape(t, Hyphen).Some? ==> r == ExpandShape(t, Hyphen).value)
      && (ExpandShape(t, Dot).None? && ExpandShape(t, Hyphen).None? && ExpandShape(t, Bare).Some? ==>
            r == ExpandShape(t, Bare).value)
      && (ExpandShape(t, Dot).None? && ExpandShape(t, Hyphen).None? && ExpandShape(t, Bare).None? ==>
            r == [t])
  {
    var t := StripBrackets(s);
    match ExpandShape(t, Dot)
    case Some(r) => r
    case None =>
      match ExpandShape(t, Hyphen)
      case Some(r) => r
      case None =>
        match ExpandShape(t, Bare)
        case Some(r) => r
        case None => [t]
  }

  /** A shape whose separator is not at index `p` does not fit there. */
  lemma ShapeAtNeedsSep(s: string, sep: Sep, p: nat)
    requires 1 <= p && !SepAt(s, p, sep)
    ensures ShapeAt(s, sep, p).None?
  {
  }

  /** A separator character that does not occur rules its shape out. */
  lemma NoShape(s: string, sep: Sep)
    requires sep != Bare && SepText(sep)[0] !in s
    ensures ExpandShape(s, sep).None?
  {
    forall p | 1 <= p
      ensures ShapeAt(s, sep, p).None?
    {
      if p < |s| {
        assert s[p] != SepText(sep)[0];
      }
    }
  }

  /** The dot shape: `X922.3/.7` stands for `X922.3` .. `X922.7`. */
  lemma ExampleDotRange()
    ensures Expand("X922.3/.7") == ["X922.3", "X922.4", "X922.5", "X922.6", "X922.7"]
  {
    var t := "X922.3/.7";
    StripBracketsPlain(t);
    ExampleDotMatch();
    ExampleDotGroups();
    ExampleDotCodes();
  }

  lemma ExampleDotMatch()
    ensures MatchShape("X922.3/.7", Dot) == Some(Hit(4, 1, 1))
  {
    var t := "X922.3/.7";
    ShapeAtNeedsSep(t, Dot, 1);
    ShapeAtNeedsSep(t, Dot, 2);
    ShapeAtNeedsSep(t, Dot, 3);
    ExampleDotShaped();
    ShapeAtIntro(t, Dot, Hit(4, 1, 1));
    assert FindShape(t, Dot, 1) == Some(4);
  }

  lemma ExampleDotShaped()
    ensures Shaped("X922.3/.7", Dot, Hit(4, 1, 1))
  {
    var t := "X922.3/.7";
    assert !NewlineIn(t, 0, 4);
    assert PostfixOk(t, 9);
  }

  lemma ExampleDotGroups()
    ensures Shaped("X922.3/.7", Dot, Hit(4, 1, 1))
    ensures Groups("X922.3/.7", Dot, Hit(4, 1, 1)) == Range("X922", 3, 7, "")
  {
    var t := "X922.3/.7";
    ExampleDotShaped();
    assert t[..4] == "X922";
    assert NumberAt(t, 5, 6) == 3 && NumberAt(t, 8, 9) == 7;
    assert !NewlineIn(t, 9, 9) && t[9..] == "";
  }

  lemma ExampleDotCodes()
    ensures Enumerate(Range("X922", 3, 7, ""), Dot) == ["X922.3", "X922.4", "X922.5", "X922.6", "X922.7"]
  {
    var g := Range("X922", 3, 7, "");
    assert EnumerateFrom(g, Dot, 8) == [];
    assert g.prefix + SepText(Dot) + NatToString(7) + g.postfix == "X922.7";
    assert EnumerateFrom(g, Dot, 7) == ["X922.7"];
    assert g.prefix + SepText(Dot) + NatToString(6) + g.postfix == "X922.6";
    assert EnumerateFrom(g, Dot, 6) == ["X922.6", "X922.7"];
    assert g.prefix + SepText(Dot) + NatToString(5) + g.postfix == "X922.5";
    assert EnumerateFrom(g, Dot, 5) == ["X922.5", "X922.6", "X922.7"];
    assert g.prefix + SepText(Dot) + NatToString(4) + g.postfix == "X922.4";
    assert EnumerateFrom(g, Dot, 4) == ["X922.4", "X922.5", "X922.6", "X922.7"];
    assert g.prefix + SepText(Dot) + NatToString(3) + g.postfix == "X922.3";
  }

  /** The hyphen shape reads its bounds with `int()`, so leading zeros are
      lost: `T-013/-017` stands for `T-13` .. `T-17`. */
  lemma ExampleHyphenRange()
    ensures Expand("T-013/-017") == ["T-13", "T-14", "T-15", "T-16", "T-17"]
  {
    var t := "T-013/-017";
    StripBracketsPlain(t);
    ExampleHyphenNoDot();
    ExampleHyphenShape();
  }

  lemma ExampleHyphenShape()
    ensures ExpandShape("T-013/-017", Hyphen) == Some(["T-13", "T-14", "T-15", "T-16", "T-17"])
  {
    ExampleHyphenMatch();
    ExampleHyphenGroups();
    ExampleHyphenCodes();
  }

  lemma ExampleHyphenShaped()
    ensures Shaped("T-013/-017", Hyphen, Hit(1, 3, 3))
  {
    var t := "T-013/-017";
    assert !NewlineIn(t, 0, 1);
    assert DigitsIn(t, 2, 3) && DigitsIn(t, 2, 4) && DigitsIn(t, 2, 5);
    assert DigitsIn(t, 7, 8) && DigitsIn(t, 7, 9) && DigitsIn(t, 7, 10);
    assert PostfixOk(t, 10);
  }

  lemma ExampleHyphenMatch()
    ensures MatchShape("T-013/-017", Hyphen) == Some(Hit(1, 3, 3))
  {
    var t := "T-013/-017";
    ExampleHyphenShaped();
    ShapeAtIntro(t, Hyphen, Hit(1, 3, 3));
    assert FindShape(t, Hyphen, 1) == Some(1);
  }

  lemma ExampleHyphenGroups()
    ensures Shaped("T-013/-017", Hyphen, Hit(1, 3, 3))
    ensures Groups("T-013/-017", Hyphen, Hit(1, 3, 3)) == Range("T", 13, 17, "")
  {
    var t := "T-013/-017";
    ExampleHyphenShaped();
    assert t[..1] == "T";
    assert NumberAt(t, 2, 5) == 13 by {
      assert NumberAt(t, 2, 3) == 0 && NumberAt(t, 2, 4) == 1;
    }
    assert NumberAt(t, 7, 10) == 17 by {
      assert NumberAt(t, 7, 8) == 0 && NumberAt(t, 7, 9) == 1;
    }
    assert !NewlineIn(t, 10, 10) && t[10..] == "";
  }

  lemma ExampleHyphenCodes()
    ensures Enumerate(Range("T", 13, 17, ""), Hyphen) == ["T-13", "T-14", "T-15", "T-16", "T-17"]
  {
    var g := Range("T", 13, 17, "");
    assert EnumerateFrom(g, Hyphen, 18) == [];
    HyphenCode(g, 17, "T-17");
    assert EnumerateFrom(g, Hyphen, 17) == ["T-17"];
    HyphenCode(g, 16, "T-16");
    assert EnumerateFrom(g, Hyphen, 16) == ["T-16", "T-17"];
    HyphenCode(g, 15, "T-15");
    assert EnumerateFrom(g, Hyphen, 15) == ["T-15", "T-16", "T-17"];
    HyphenCode(g, 14, "T-14");
    assert EnumerateFrom(g, Hyphen, 14) == ["T-14", "T-15", "T-16", "T-17"];
    HyphenCode(g, 13, "T-13");
  }

  lemma HyphenCode(g: Range, i: nat, code: string)
    requires g.prefix == "T" && g.postfix == "" && 10 <= i < 20
    requires code == "T-1" + [DigitChar(i - 10)]
    ensures g.prefix + SepText(Hyphen) + NatToString(i) + g.postfix == code
  {
    assert NatToString(i) == "1" + [DigitChar(i - 10)];
  }

  /** A range whose end is below its start stands for no code at all. */
  lemma ExampleEmptyRange()
    ensures Expand("Z817/813") == []
  {
    var t := "Z817/813";
    StripBracketsPlain(t);
    ExampleEmptyNoSep();
    ExampleEmptyShape();
  }

  lemma ExampleEmptyShape()
    ensures ExpandShape("Z817/813", Bare) == Some([])
  {
    ExampleEmptyMatch();
    ExampleEmptyGroups();
  }

  lemma ExampleEmptyMatch()
    ensures MatchShape("Z817/813", Bare) == Some(Hit(1, 3, 3))
  {
    var t := "Z817/813";
    assert Shaped(t, Bare, Hit(1, 3, 3)) by {
      assert !NewlineIn(t, 0, 1);
      assert DigitsIn(t, 1, 2) && DigitsIn(t, 1, 3) && DigitsIn(t, 1, 4);
      assert DigitsIn(t, 5, 6) && DigitsIn(t, 5, 7) && DigitsIn(t, 5, 8);
      assert PostfixOk(t, 8);
    }
    ShapeAtIntro(t, Bare, Hit(1, 3, 3));
    assert FindShape(t, Bare, 1) == Some(1);
  }

  lemma ExampleEmptyGroups()
    ensures Shaped("Z817/813", Bare, Hit(1, 3, 3))
    ensures Groups("Z817/813", Bare, Hit(1, 3, 3)).start == 817
    ensures Groups("Z817/813", Bare, Hit(1, 3, 3)).end == 813
  {
    var t := "Z817/813";
    ExampleEmptyMatch();
    ShapeAtShaped(t, Bare, 1);
    assert NumberAt(t, 1, 4) == 817 by {
      assert NumberAt(t, 1, 2) == 8 && NumberAt(t, 1, 3) == 81;
    }
    assert NumberAt(t, 5, 8) == 813 by {
      assert NumberAt(t, 5, 6) == 8 && NumberAt(t, 5, 7) == 81;
    }
  }

  lemma ExampleHyphenNoDot()
    ensures ExpandShape("T-013/-017", Dot).None?
  {
    NoShape("T-013/-017", Dot);
  }

  lemma ExampleEmptyNoSep()
    ensures ExpandShape("Z817/813", Dot).None? && ExpandShape("Z817/813", Hyphen).None?
  {
    NoShape("Z817/813", Dot);
    NoShape("Z817/813", Hyphen);
  }
}
