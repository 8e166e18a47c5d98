/** The plugin's ISBN helpers: `canonical`, the ISBN-10 and ISBN-13 check
    digits and validators, and the conversion from ISBN-10 to ISBN-13.

    The validators are related to the checksums of ISO 2108: an ISBN-10
    whose digits, weighted 1 to 10 from the front, sum to a multiple of 11
    (a final `X` standing for 10), and an ISBN-13 with prefix 978 or 979
    whose digits, weighted alternately 1 and 3, sum to a multiple of 10. */
module Isbn {
  import opened Strings

  // ---------------------------------------------------------------------------
  // canonical
  // ---------------------------------------------------------------------------

  /** A character `canonical` keeps: an ASCII digit, `X` or `x`. */
  predicate IsIsbnChar(c: char)
  {
    IsDigit(c) || c == 'X' || c == 'x'
  }

  /** The characters of `s` that `canonical` keeps, in order. */
  function Filter(s: string): (r: string)
    ensures |r| <= |s|
    ensures forall i :: 0 <= i < |r| ==> IsIsbnChar(r[i])
  {
    if s == [] then [] else (if IsIsbnChar(s[0]) then [s[0]] else []) + Filter(s[1..])
  }

  /** Filtering keeps exactly the ISBN characters of `s`. */
  lemma {:induction false} FilterKeeps(s: string, c: char)
    ensures c in Filter(s) <==> c in s && IsIsbnChar(c)
  {
    if s != [] {
      FilterKeeps(s[1..], c);
      assert s == [s[0]] + s[1..];
    }
  }

  /** A string of ISBN characters is left as it is. */
  lemma {:induction false} FilterFixed(s: string)
    requires forall i :: 0 <= i < |s| ==> IsIsbnChar(s[i])
    ensures Filter(s) == s
  {
    if s != [] {
      FilterFixed(s[1..]);
    }
  }

  /** Filtering works piece by piece and keeps the order of the pieces;
      together with `FilterOne` this fixes `Filter` on every string. */
  lemma {:induction false} FilterAppend(a: string, b: string)
    ensures Filter(a + b) == Filter(a) + Filter(b)
  {
    if a == [] {
      assert a + b == b;
    } else {
      assert (a + b)[0] == a[0] && (a + b)[1..] == a[1..] + b;
      FilterAppend(a[1..], b);
      AppendAssoc(if IsIsbnChar(a[0]) then [a[0]] else [], Filter(a[1..]), Filter(b));
    }
  }

  /** One character is kept exactly when it is an ISBN character. */
  lemma FilterOne(c: char)
    ensures Filter([c]) == if IsIsbnChar(c) then [c] else []
  {
    assert [c][1..] == [];
  }

  /** A separator anywhere in the input does not change the result of
      `canonical`. */
  lemma CanonicalIgnoresSeparators(a: string, c: char, b: string)
    requires !IsIsbnChar(c)
    ensures Canonical(a + [c] + b) == Canonical(a + b)
  {
    FilterAppend(a + [c], b);
    FilterAppend(a, [c]);
    FilterAppend(a, b);
    FilterOne(c);
    assert Filter(a) + [] == Filter(a);
  }

  /** A trailing `x` becomes `X`; nothing else changes. */
  function UpperLast(s: string): (r: string)
    ensures |r| == |s|
    ensures forall i :: 0 <= i < |s| - 1 ==> r[i] == s[i]
    ensures s != [] ==> r[|s| - 1] == (if s[|s| - 1] == 'x' then 'X' else s[|s| - 1])
  {
    if s != [] && s[|s| - 1] == 'x' then s[..|s| - 1] + "X" else s
  }

  /** `s.find(c)`: the index of the first `c` in `s`, or -1. */
  function Find(s: string, c: char): (r: int)
    ensures -1 <= r < |s|
    ensures r == -1 <==> c !in s
    ensures r >= 0 ==> s[r] == c && forall k :: 0 <= k < r ==> s[k] != c
  {
    if s == [] then -1
    else if s[0] == c then 0
    else
      var k := Find(s[1..], c);
      assert s == [s[0]] + s[1..];
      if k == -1 then -1 else k + 1
  }

  /** The special cases `canonical` turns into `''`: a non-empty result of
      the wrong length, one of the three all-zero forms, an `X` first found
      anywhere but index 9, or any lower-case `x` left. */
  predicate Rejected(isbn: string)
  {
    || (isbn != [] && |isbn| != 10 && |isbn| != 13)
    || isbn == "0000000000" || isbn == "0000000000000" || isbn == "000000000X"
    || (Find(isbn, 'X') != 9 && Find(isbn, 'X') != -1)
    || Find(isbn, 'x') != -1
  }

  /** `canonical(isbnlike)`. */
  function Canonical(s: string): (r: string)
    ensures r == [] || |r| == 10 || |r| == 13
    ensures forall i :: 0 <= i < |r| ==> IsDigit(r[i]) || r[i] == 'X'
  {
    var isbn := UpperLast(Filter(s));
    if Rejected(isbn) then [] else isbn
  }

  /** The strings `canonical` returns: digits and `X` only, and none of the
      special cases. */
  predicate IsCanonicalForm(s: string)
  {
    (forall i :: 0 <= i < |s| ==> IsDigit(s[i]) || s[i] == 'X') && !Rejected(s)
  }

  /** Every result of `canonical` has the canonical form. */
  lemma CanonicalForm(s: string)
    ensures IsCanonicalForm(Canonical(s))
  {
    var r := Canonical(s);
    if r == [] {
      assert !Rejected(r);
    }
  }

  /** `canonical` leaves a string unchanged exactly when it has the canonical
      form. */
  lemma CanonicalFixedPoint(s: string)
    ensures Canonical(s) == s <==> IsCanonicalForm(s)
  {
    if IsCanonicalForm(s) {
      assert forall i :: 0 <= i < |s| ==> IsIsbnChar(s[i]);
      FilterFixed(s);
      assert UpperLast(s) == s;
    }
    CanonicalForm(s);
  }

  /** `canonical` is idempotent. */
  lemma CanonicalIdempotent(s: string)
    ensures Canonical(Canonical(s)) == Canonical(s)
  {
    CanonicalForm(s);
    CanonicalFixedPoint(Canonical(s));
  }

  // ---------------------------------------------------------------------------
  // ISBN-10
  // ---------------------------------------------------------------------------

  /** Digits and `X`: the characters an ISBN-10 may hold. */
  predicate IsTenChar(c: char)
  {
    IsDigit(c) || c == 'X'
  }

  /** The value of an ISBN-10 character: a digit at face value, `X` as 10. */
  function Value10(c: char): (v: nat)
    requires IsTenChar(c)
    ensures v <= 10
    ensures IsDigit(c) ==> v == DigitValue(c)
  {
    if c == 'X' then 10 else DigitValue(c)
  }

  /** `val` of `check_digit10`: the digits of `s` taken from the end with
      weights 2, 3, ..., so `s[k]` weighs `|s| + 1 - k`. */
  function Sum10(s: string): nat
    requires AllDigits(s)
  {
    if s == [] then 0 else (|s| + 1) * DigitValue(s[0]) + Sum10(s[1..])
  }

  /** `check_digit10(firstninedigits)`. `int()` fails on a nine-character
      string holding a non-digit, and the function then returns `''`. */
  function CheckDigit10(s: string): (r: string)
    ensures r == [] <==> |s| != 9 || !AllDigits(s)
    ensures r != [] ==> |r| == 1 && IsTenChar(r[0])
  {
    if |s| != 9 || !AllDigits(s) then []
    else
      var rem := Sum10(s) % 11;
      var d := if rem == 0 then 0 else 11 - rem;
      if d != 10 then [DigitChar(d)] else "X"
  }

  /** The check digit is the one character that brings the weighted sum to
      a multiple of 11. */
  lemma CheckDigit10Completes(s: string, c: char)
    requires |s| == 9 && AllDigits(s) && IsTenChar(c)
    ensures CheckDigit10(s) == [c] <==> (Sum10(s) + Value10(c)) % 11 == 0
  {
    ElevenComplete(Sum10(s), Value10(c));
  }

  /** Adding `x < 11` to `a` gives a multiple of 11 exactly when `x` is
      the complement of `a % 11`. */
  lemma ElevenComplete(a: nat, x: nat)
    requires x < 11
    ensures (a + x) % 11 == 0 <==> x == (11 - a % 11) % 11
  {
  }

  /** `is_isbn10(isbn10)`. */
  predicate IsIsbn10(s: string)
  {
    var c := Canonical(s);
    |c| == 10 && CheckDigit10(c[..9]) == [c[9]]
  }

  /** The ISBN-10 checksum with weights 1, 2, ... from the front, starting at
      weight `w`. */
  function AscSum10(s: string, w: nat): nat
    requires forall i :: 0 <= i < |s| ==> IsTenChar(s[i])
  {
    if s == [] then 0 else w * Value10(s[0]) + AscSum10(s[1..], w + 1)
  }

  /** The plain sum of the character values. */
  function Total10(s: string): nat
    requires forall i :: 0 <= i < |s| ==> IsTenChar(s[i])
  {
    if s == [] then 0 else Value10(s[0]) + Total10(s[1..])
  }

  /** A valid ISBN-10 by the ISO 2108 rule: nine digits and a digit or `X`,
      with `Σ (k + 1) * value(c[k])` a multiple of 11. */
  predicate Isbn10Checksum(c: string)
  {
    && |c| == 10
    && (forall i :: 0 <= i < 10 ==> IsTenChar(c[i]))
    && (forall i :: 0 <= i < 9 ==> IsDigit(c[i]))
    && AscSum10(c, 1) % 11 == 0
  }

  /** The weights of `check_digit10` and the ascending weights add up to the
      same weight on every position. */
  lemma {:induction false} Sum10PlusAscSum(s: string, w: nat)
    requires AllDigits(s)
    ensures Sum10(s) + AscSum10(s, w) == (|s| + 1 + w) * Total10(s)
  {
    if s != [] {
      var n, x, t := |s|, Value10(s[0]), Total10(s[1..]);
      Sum10PlusAscSum(s[1..], w + 1);
      assert Sum10(s[1..]) + AscSum10(s[1..], w + 1) == (n + 1 + w) * t;
      Distribute(x, n + 1, w);
      Distribute(n + 1 + w, x, t);
    }
  }

  lemma Distribute(a: int, b: int, c: int)
    ensures a * (b + c) == a * b + a * c && (b + c) * a == b * a + c * a
  {
  }

  /** Appending a character adds it with the next weight. */
  lemma {:induction false} AscSum10Append(s: string, c: char, w: nat)
    requires forall i :: 0 <= i < |s| ==> IsTenChar(s[i])
    requires IsTenChar(c)
    ensures AscSum10(s + [c], w) == AscSum10(s, w) + (w + |s|) * Value10(c)
  {
    if s != [] {
      assert (s + [c])[1..] == s[1..] + [c];
      AscSum10Append(s[1..], c, w + 1);
    }
  }

  /** The check of `is_isbn10` agrees with the ISO 2108 checksum. */
  lemma CheckSumsAgree10(c: string)
    requires |c| == 10 && AllDigits(c[..9]) && IsTenChar(c[9])
    ensures (Sum10(c[..9]) + Value10(c[9])) % 11 == 0 <==> AscSum10(c, 1) % 11 == 0
  {
    var p := c[..9];
    assert c == p + [c[9]];
    Sum10PlusAscSum(p, 1);
    AscSum10Append(p, c[9], 1);
    var v, t := Value10(c[9]), Total10(p);
    assert Sum10(p) + v + AscSum10(c, 1) == 11 * (t + v);
    ElevenComplement(Sum10(p) + v, AscSum10(c, 1), t + v);
  }

  /** Two numbers adding up to a multiple of 11 are multiples of 11
      together. */
  lemma ElevenComplement(a: nat, b: nat, k: nat)
    requires a + b == 11 * k
    ensures a % 11 == 0 <==> b % 11 == 0
  {
  }

  /** `is_isbn10` holds exactly when the canonical form is a valid ISBN-10. */
  lemma IsIsbn10Meaning(s: string)
    ensures IsIsbn10(s) <==> Isbn10Checksum(Canonical(s))
  {
    var c := Canonical(s);
    if |c| == 10 {
      var p := c[..9];
      CanonicalForm(s);
      assert !Rejected(c);
      assert forall i :: 0 <= i < 9 ==> c[i] != 'X';
      assert AllDigits(p);
      CheckDigit10Completes(p, c[9]);
      CheckSumsAgree10(c);
    }
  }

  // ---------------------------------------------------------------------------
  // ISBN-13
  // ---------------------------------------------------------------------------

  /** `val` of `check_digit13`: `Σ (i % 2 * 2 + 1) * int(s[i])`, weights 1,
      3, 1, 3, ... from the front. */
  function Sum13(s: string): nat
    requires AllDigits(s)
  {
    if s == [] then 0
    else Sum13(s[..|s| - 1]) + ((|s| - 1) % 2 * 2 + 1) * DigitValue(s[|s| - 1])
  }

  /** `check_digit13(firsttwelvedigits)`. */
  function CheckDigit13(s: string): (r: string)
    ensures r == [] <==> |s| != 12 || !AllDigits(s)
    ensures r != [] ==> |r| == 1 && IsDigit(r[0])
  {
    if |s| != 12 || !AllDigits(s) then []
    else
      var d := 10 - Sum13(s) % 10;
      if d != 10 then [DigitChar(d)] else "0"
  }

  /** The check digit is the one digit that, weighted 1 in the thirteenth
      place, brings the sum to a multiple of 10. */
  lemma CheckDigit13Completes(s: string, c: char)
    requires |s| == 12 && AllDigits(s) && IsDigit(c)
    ensures CheckDigit13(s) == [c] <==> Sum13(s + [c]) % 10 == 0
  {
    var t := s + [c];
    assert t[..|t| - 1] == s;
    assert Sum13(t) == Sum13(s) + DigitValue(c);
    TenComplete(Sum13(s), DigitValue(c));
  }

  /** Adding a digit `x` to `a` gives a multiple of 10 exactly when `x` is
      the complement of `a % 10`. */
  lemma TenComplete(a: nat, x: nat)
    requires x < 10
    ensures (a + x) % 10 == 0 <==> x == (10 - a % 10) % 10
  {
  }

  /** The two prefixes `is_isbn13` accepts. */
  predicate HasIsbnPrefix(c: string)
  {
    |c| >= 3 && (c[..3] == "978" || c[..3] == "979")
  }

  /** `is_isbn13(isbn13)`. */
  predicate IsIsbn13(s: string)
  {
    var c := Canonical(s);
    |c| == 13 && HasIsbnPrefix(c) && CheckDigit13(c[..12]) == [c[12]]
  }

  /** A valid ISBN-13: thirteen digits, prefix 978 or 979, and the
      alternately weighted sum a multiple of 10. */
  predicate Isbn13Checksum(c: string)
  {
    |c| == 13 && AllDigits(c) && HasIsbnPrefix(c) && Sum13(c) % 10 == 0
  }

  /** `is_isbn13` holds exactly when the canonical form is a valid ISBN-13. */
  lemma IsIsbn13Meaning(s: string)
    ensures IsIsbn13(s) <==> Isbn13Checksum(Canonical(s))
  {
    var c := Canonical(s);
    if |c| == 13 {
      var p := c[..12];
      assert c == p + [c[12]];
      if IsIsbn13(s) {
        assert AllDigits(p) && IsDigit(c[12]);
        CheckDigit13Completes(p, c[12]);
      }
      if Isbn13Checksum(c) {
        CheckDigit13Completes(p, c[12]);
      }
    }
  }

  // ---------------------------------------------------------------------------
  // to_isbn13
  // ---------------------------------------------------------------------------

  /** `to_isbn13(isbn10)`. */
  function ToIsbn13(s: string): (r: string)
    ensures r == [] || |r| == 13
  {
    var c := Canonical(s);
    if |c| == 13 && IsIsbn13(c) then c
    else if !IsIsbn10(c) then []
    else
      var t := "978" + c[..9];
      var check := CheckDigit13(t);
      if check != [] then t + check else []
  }

  /** An ISBN-10 becomes `978`, its first nine digits and a fresh check
      digit. */
  lemma ToIsbn13OfIsbn10(s: string)
    requires IsIsbn10(s)
    ensures var c := Canonical(s); var r := ToIsbn13(s);
      |r| == 13 && r[..3] == "978" && r[3..12] == c[..9]
  {
    var c := Canonical(s);
    CanonicalIdempotent(s);
    CanonicalForm(s);
    Prefixed13(c);
  }

  /** The nine digits of a canonical ISBN-10 with `978` in front have a check
      digit. */
  lemma Prefixed13(c: string)
    requires IsCanonicalForm(c) && IsIsbn10(c)
    ensures CheckDigit13("978" + c[..9]) != []
  {
    var p := c[..9];
    var t := "978" + p;
    CanonicalFixedPoint(c);
    assert forall i :: 0 <= i < 9 ==> c[i] != 'X';
    assert AllDigits(p);
    assert forall i :: 0 <= i < 12 ==> t[i] == (if i < 3 then "978"[i] else p[i - 3]);
  }

  /** Every non-empty result is a valid ISBN-13 and already canonical. */
  lemma ToIsbn13Valid(s: string)
    ensures var r := ToIsbn13(s); r == [] || (Canonical(r) == r && IsIsbn13(r))
  {
    var c := Canonical(s);
    var r := ToIsbn13(s);
    CanonicalIdempotent(s);
    CanonicalForm(s);
    if |c| == 13 && IsIsbn13(c) {
    } else if IsIsbn10(c) {
      var t := "978" + c[..9];
      Prefixed13(c);
      var check := CheckDigit13(t);
      assert r == t + check;
      Isbn13Canonical(t, check[0]);
      assert r[..12] == t;
      assert r[..3] == "978";
    }
  }

  /** Thirteen digits starting with 9 are canonical. */
  lemma Isbn13Canonical(t: string, d: char)
    requires |t| == 12 && AllDigits(t) && t[0] == '9' && IsDigit(d)
    ensures Canonical(t + [d]) == t + [d]
  {
    var r := t + [d];
    assert AllDigits(r);
    assert Find(r, 'X') == -1;
    assert Find(r, 'x') == -1;
    assert r != "0000000000000";
    CanonicalFixedPoint(r);
  }

  /** `to_isbn13` succeeds exactly on valid ISBN-10s and ISBN-13s. */
  lemma ToIsbn13Succeeds(s: string)
    ensures ToIsbn13(s) != [] <==> IsIsbn10(s) || IsIsbn13(s)
  {
    var c := Canonical(s);
    CanonicalIdempotent(s);
    CanonicalForm(s);
    if IsIsbn10(c) {
      Prefixed13(c);
    }
  }

  /** A valid ISBN-13 comes back in its canonical form. */
  lemma ToIsbn13KeepsIsbn13(s: string)
    requires IsIsbn13(s)
    ensures ToIsbn13(s) == Canonical(s)
  {
    CanonicalIdempotent(s);
  }

  /** Converting twice is converting once. */
  lemma ToIsbn13Idempotent(s: string)
    ensures ToIsbn13(ToIsbn13(s)) == ToIsbn13(s)
  {
    var r := ToIsbn13(s);
    ToIsbn13Valid(s);
    if r != [] {
      ToIsbn13KeepsIsbn13(r);
    } else {
      assert Canonical(r) == [] by { CanonicalFixedPoint(r); }
    }
  }
}
