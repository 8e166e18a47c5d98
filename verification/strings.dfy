/** The handful of Python `str` operations the resolver relies on, on strings
    as sequences of characters: ASCII digits and `int`/`str` conversion,
    `strip()`, single-character `replace`, `split` and `join`. */
module Strings {

  // ---------------------------------------------------------------------------
  // Digits and decimal conversion
  // ---------------------------------------------------------------------------

  /** An ASCII decimal digit (what `\d` matches for the inputs of this model). */
  predicate IsDigit(c: char)
  {
    '0' <= c <= '9'
  }

  predicate AllDigits(s: string)
  {
    forall i :: 0 <= i < |s| ==> IsDigit(s[i])
  }

  function DigitValue(c: char): (d: nat)
    requires IsDigit(c)
    ensures d < 10
  {
    c as int - '0' as int
  }

  function DigitChar(d: nat): (c: char)
    requires d < 10
    ensures IsDigit(c) && DigitValue(c) == d
  {
    ('0' as int + d) as char
  }

  /** Python's `int(s)` for a string of ASCII digits; leading zeros are
      accepted and contribute nothing. */
  function DecimalValue(s: string): nat
    requires AllDigits(s)
  {
    if s == [] then 0 else 10 * DecimalValue(s[..|s| - 1]) + DigitValue(s[|s| - 1])
  }

  /** Python's `str(n)` (also `f"{n}"`) for a non-negative int: the shortest
      decimal numeral, so without leading zeros; `int` reads it back as `n`. */
  function NatToString(n: nat): (r: string)
    ensures |r| >= 1 && AllDigits(r)
    ensures r[0] == '0' <==> n == 0
    ensures n == 0 ==> r == "0"
    ensures DecimalValue(r) == n
  {
    if n < 10 then [DigitChar(n)]
    else
      var hi := NatToString(n / 10);
      var r := hi + [DigitChar(n % 10)];
      assert r[..|r| - 1] == hi;
      r
  }

  /** Leading zeros change nothing: `int("013") == int("13")`. */
  lemma {:induction false} DecimalValueLeadingZero(s: string)
    requires AllDigits(s)
    ensures DecimalValue("0" + s) == DecimalValue(s)
  {
    if s != [] {
      var z := "0" + s;
      assert z[..|z| - 1] == "0" + s[..|s| - 1];
      assert z[|z| - 1] == s[|s| - 1];
      DecimalValueLeadingZero(s[..|s| - 1]);
    }
  }

  /** Two non-negative numbers print the same only if they are equal. */
  lemma NatToStringInjective(a: nat, b: nat)
    requires NatToString(a) == NatToString(b)
    ensures a == b
  {
    assert DecimalValue(NatToString(a)) == a;
  }

  /** Length of the maximal run of digits in `s` starting at index `i`
      (what a greedy `\d+` or `\d*` consumes there). */
  function DigitRun(s: string, i: nat): (n: nat)
    requires i <= |s|
    ensures i + n <= |s|
    decreases |s| - i
  {
    if i < |s| && IsDigit(s[i]) then 1 + DigitRun(s, i + 1) else 0
  }

  /** The run is all digits and cannot be extended. */
  lemma {:induction false} DigitRunMaximal(s: string, i: nat)
    requires i <= |s|
    ensures forall k :: i <= k < i + DigitRun(s, i) ==> IsDigit(s[k])
    ensures i + DigitRun(s, i) == |s| || !IsDigit(s[i + DigitRun(s, i)])
    decreases |s| - i
  {
    if i < |s| && IsDigit(s[i]) {
      DigitRunMaximal(s, i + 1);
    }
  }

  function Min(a: int, b: int): int
  {
    if a <= b then a else b
  }

  // ---------------------------------------------------------------------------
  // Whitespace and strip()
  // ---------------------------------------------------------------------------

  /** The characters Python's `str.isspace()` accepts, which are the
      characters `str.strip()` with no argument removes. */
  predicate IsSpace(c: char)
  {
    || c == ' ' || c == '\t' || c == '\n' || c == '\r' || c == '\U{000B}' || c == '\U{000C}'
    || ('\U{001C}' <= c <= '\U{001F}') || c == '\U{0085}' || c == '\U{00A0}' || c == '\U{1680}'
    || ('\U{2000}' <= c <= '\U{200A}') || c == '\U{2028}' || c == '\U{2029}' || c == '\U{202F}'
    || c == '\U{205F}' || c == '\U{3000}'
  }

  predicate AllSpace(s: string)
  {
    forall i :: 0 <= i < |s| ==> IsSpace(s[i])
  }

  /** Number of whitespace characters from index `i` on, up to the first
      non-whitespace one. */
  function SpaceRun(s: string, i: nat): (n: nat)
    requires i <= |s|
    ensures i + n <= |s|
    ensures forall k :: i <= k < i + n ==> IsSpace(s[k])
    ensures i + n == |s| || !IsSpace(s[i + n])
    decreases |s| - i
  {
    if i < |s| && IsSpace(s[i]) then 1 + SpaceRun(s, i + 1) else 0
  }

  /** Number of whitespace characters that end `s[lo..j]`, down to the last
      non-whitespace one. */
  function SpaceRunBack(s: string, lo: nat, j: nat): (n: nat)
    requires lo <= j <= |s|
    ensures lo <= j - n
    ensures forall k :: j - n <= k < j ==> IsSpace(s[k])
    ensures j - n == lo || !IsSpace(s[j - n - 1])
    decreases j
  {
    if lo < j && IsSpace(s[j - 1]) then 1 + SpaceRunBack(s, lo, j - 1) else 0
  }

  /** `r` is `s` less a whitespace prefix and a whitespace suffix. */
  ghost predicate TrimmedOf(s: string, r: string)
  {
    exists i, j ::
      && 0 <= i <= j <= |s|
      && (forall k :: 0 <= k < i ==> IsSpace(s[k]))
      && (forall k :: j <= k < |s| ==> IsSpace(s[k]))
      && r == s[i..j]
  }

  /** Python's `s.strip()`. */
  function Strip(s: string): (r: string)
    ensures |r| <= |s|
  {
    var i := SpaceRun(s, 0);
    s[i..|s| - SpaceRunBack(s, i, |s|)]
  }

  /** `s.strip()` is `s` with its leading and trailing whitespace removed and
      nothing else changed; it is empty exactly when `s` is all whitespace. */
  lemma StripMeaning(s: string)
    ensures TrimmedOf(s, Strip(s))
    ensures Strip(s) == [] || (!IsSpace(Strip(s)[0]) && !IsSpace(Strip(s)[|Strip(s)| - 1]))
    ensures Strip(s) == [] <==> AllSpace(s)
  {
    var i := SpaceRun(s, 0);
    var j := |s| - SpaceRunBack(s, i, |s|);
    assert Strip(s) == s[i..j];
    assert TrimmedOf(s, s[i..j]) by {
      assert forall k :: 0 <= k < i ==> IsSpace(s[k]);
    }
  }

  /** A string that neither starts nor ends with whitespace is left as it is. */
  lemma StripUnchanged(s: string)
    requires s == [] || (!IsSpace(s[0]) && !IsSpace(s[|s| - 1]))
    ensures Strip(s) == s
  {
    if s != [] {
      assert SpaceRun(s, 0) == 0;
      assert SpaceRunBack(s, 0, |s|) == 0;
    }
  }

  // ---------------------------------------------------------------------------
  // replace(), split(), join()
  // ---------------------------------------------------------------------------

  /** Python's `s.replace(c, rep)` for a one-character needle `c`: every
      occurrence of `c` is replaced by `rep`, left to right. */
  function ReplaceChar(s: string, c: char, rep: string): (r: string)
    ensures c !in s ==> r == s
    ensures c !in rep ==> c !in r
    ensures forall x :: x != c && x !in rep ==> (x in r <==> x in s)
    ensures |rep| == 1 ==> |r| == |s| && forall i :: 0 <= i < |s| ==> r[i] == (if s[i] == c then rep[0] else s[i])
  {
    if s == [] then []
    else (if s[0] == c then rep else [s[0]]) + ReplaceChar(s[1..], c, rep)
  }

  /** Replacing characters commutes with concatenation. */
  lemma {:induction false} ReplaceCharAppend(a: string, b: string, c: char, rep: string)
    ensures ReplaceChar(a + b, c, rep) == ReplaceChar(a, c, rep) + ReplaceChar(b, c, rep)
  {
    if a == [] {
      assert a + b == b;
    } else {
      var h := if a[0] == c then rep else [a[0]];
      assert (a + b)[0] == a[0] && (a + b)[1..] == a[1..] + b;
      ReplaceCharCons(a + b, c, rep);
      ReplaceCharAppend(a[1..], b, c, rep);
      AppendAssoc(h, ReplaceChar(a[1..], c, rep), ReplaceChar(b, c, rep));
    }
  }

  lemma ReplaceCharCons(s: string, c: char, rep: string)
    requires s != []
    ensures ReplaceChar(s, c, rep) == (if s[0] == c then rep else [s[0]]) + ReplaceChar(s[1..], c, rep)
  {
  }

  lemma AppendAssoc<T>(a: seq<T>, b: seq<T>, c: seq<T>)
    ensures a + (b + c) == (a + b) + c
  {
  }

  /** Python's `sep.join(parts)` for a one-character separator. */
  function Join(parts: seq<string>, sep: char): string
  {
    if parts == [] then []
    else if |parts| == 1 then parts[0]
    else parts[0] + [sep] + Join(parts[1..], sep)
  }

  /** Python's `s.split(sep)` for a one-character separator: the maximal
      separator-free pieces, including empty ones, which `join` glues back. */
  function Split(s: string, sep: char): (r: seq<string>)
    ensures |r| >= 1
    ensures forall i :: 0 <= i < |r| ==> sep !in r[i]
    ensures Join(r, sep) == s
  {
    if s == [] then [[]]
    else
      var rest := Split(s[1..], sep);
      if s[0] == sep then [[]] + rest
      else [[s[0]] + rest[0]] + rest[1..]
  }

  /** The other half of the round trip: splitting a join of separator-free
      pieces gives the pieces back. */
  lemma {:induction false} SplitJoin(parts: seq<string>, sep: char)
    requires |parts| >= 1
    requires forall i :: 0 <= i < |parts| ==> sep !in parts[i]
    ensures Split(Join(parts, sep), sep) == parts
  {
    if |parts| == 1 {
      SplitNoSep(parts[0], sep);
    } else {
      SplitJoin(parts[1..], sep);
      SplitPieceThenSep(parts[0], Join(parts[1..], sep), sep);
      assert Join(parts, sep) == parts[0] + [sep] + Join(parts[1..], sep);
      assert [parts[0]] + parts[1..] == parts;
    }
  }

  lemma {:induction false} SplitNoSep(p: string, sep: char)
    requires sep !in p
    ensures Split(p, sep) == [p]
  {
    if p != [] {
      SplitNoSep(p[1..], sep);
      assert [p[0]] + p[1..] == p;
    }
  }

  lemma {:induction false} SplitPieceThenSep(p: string, tail: string, sep: char)
    requires sep !in p
    ensures Split(p + [sep] + tail, sep) == [p] + Split(tail, sep)
  {
    if p == [] {
      assert p + [sep] + tail == [sep] + tail;
      assert ([sep] + tail)[1..] == tail;
    } else {
      assert (p + [sep] + tail)[1..] == p[1..] + [sep] + tail;
      SplitPieceThenSep(p[1..], tail, sep);
      assert [p[0]] + p[1..] == p;
    }
  }
}
