/** `parse`: a raw classification field holding one or more codes.

    The field is split at ASCII and full-width semicolons, each piece is
    stripped, blank pieces are skipped, and every remaining piece is resolved
    with `parse_code`. The result is a dict from piece to resolved path; a
    piece that occurs twice keeps its first position and its (identical)
    value. */
module Parser {
  import opened Options
  import opened Strings
  import opened OrderedMaps
  import opened Resolver

  /** The full-width semicolon U+FF1B, which `parse` treats like `;`. */
  const FullWidthSemicolon: char := '；'

  /** The pieces of the field: `s.replace('；', ';').split(';')`. */
  function Units(s: string): (us: seq<string>)
    ensures |us| >= 1
    ensures forall i :: 0 <= i < |us| ==> ';' !in us[i]
  {
    Split(ReplaceChar(s, FullWidthSemicolon, ";"), ';')
  }

  /** The non-blank stripped pieces, in order: the codes `parse` resolves. */
  function Codes(us: seq<string>): (cs: seq<string>)
    ensures |cs| <= |us|
  {
    if us == [] then []
    else
      var code := Strip(us[0]);
      (if code == [] then [] else [code]) + Codes(us[1..])
  }

  /** The assignments `result[code] = parse_code(code)`, in order. */
  function Resolutions(m: OMap<MatchNode>, cs: seq<string>): (es: seq<(string, seq<string>)>)
    ensures |es| == |cs|
    ensures forall i :: 0 <= i < |cs| ==> es[i].0 == cs[i]
  {
    if cs == [] then [] else [(cs[0], ParseCode(m, cs[0]))] + Resolutions(m, cs[1..])
  }

  lemma {:induction false} ResolutionsValues(m: OMap<MatchNode>, cs: seq<string>)
    ensures forall i :: 0 <= i < |cs| ==> Resolutions(m, cs)[i].1 == ParseCode(m, cs[i])
  {
    if cs != [] {
      ResolutionsValues(m, cs[1..]);
      assert forall i :: 1 <= i < |cs| ==> Resolutions(m, cs)[i] == Resolutions(m, cs[1..])[i - 1];
    }
  }

  /** `Parser.parse(s)` against match tree `m`. */
  function Parse(m: OMap<MatchNode>, s: string): (r: OMap<seq<string>>)
    ensures DistinctKeys(r)
  {
    PutAll([], Resolutions(m, Codes(Units(s))))
  }

  /** Every code is a non-blank stripped piece. */
  lemma {:induction false} CodesSound(us: seq<string>, k: string) returns (j: nat)
    requires k in Codes(us)
    ensures j < |us| && k == Strip(us[j]) && k != []
  {
    var code := Strip(us[0]);
    if code != [] && k == code {
      j := 0;
    } else {
      assert k in Codes(us[1..]);
      var j' := CodesSound(us[1..], k);
      j := j' + 1;
    }
  }

  /** Every non-blank stripped piece is a code. */
  lemma {:induction false} CodesComplete(us: seq<string>, j: nat)
    requires j < |us| && Strip(us[j]) != []
    ensures Strip(us[j]) in Codes(us)
  {
    if j > 0 {
      CodesComplete(us[1..], j - 1);
      assert us[1..][j - 1] == us[j];
    }
  }

  /** The keys of `parse(s)` are exactly its codes. */
  lemma ParseKeyIsCode(m: OMap<MatchNode>, s: string, k: string)
    ensures HasKey(Parse(m, s), k) <==> k in Codes(Units(s))
  {
    var cs := Codes(Units(s));
    var es := Resolutions(m, cs);
    PutAllFresh(es, k);
    if k in cs {
      var i :| 0 <= i < |cs| && cs[i] == k;
      assert es[i].0 == k;
    }
  }

  /** The keys of `parse(s)` are exactly the non-blank stripped pieces of
      `s`. */
  lemma ParseKeysExact(m: OMap<MatchNode>, s: string, k: string)
    ensures HasKey(Parse(m, s), k) <==>
              k != [] && exists j :: 0 <= j < |Units(s)| && k == Strip(Units(s)[j])
  {
    var us := Units(s);
    ParseKeyIsCode(m, s, k);
    if k in Codes(us) {
      var j := CodesSound(us, k);
    }
    if k != [] && exists j :: 0 <= j < |us| && k == Strip(us[j]) {
      var j :| 0 <= j < |us| && k == Strip(us[j]);
      CodesComplete(us, j);
    }
  }

  /** Each key of `parse(s)` maps to its resolution by `parse_code`. */
  lemma ParseValues(m: OMap<MatchNode>, s: string, k: string)
    requires HasKey(Parse(m, s), k)
    ensures Get(Parse(m, s), k) == Some(ParseCode(m, k))
  {
    var es := Resolutions(m, Codes(Units(s)));
    PutAllFresh(es, k);
    ResolutionsValues(m, Codes(Units(s)));
    var i :| 0 <= i < |es| && es[i] == (k, LastValue(es, k).value);
  }

  /** The keys of `parse(s)` follow the field: each code once, at the
      position of its first occurrence. */
  lemma ParseKeyOrder(m: OMap<MatchNode>, s: string)
    ensures KeySeq(Parse(m, s)) == Fresh(Codes(Units(s)), [])
  {
    var cs := Codes(Units(s));
    PutAllFreshKeys(Resolutions(m, cs));
    assert KeySeq(Resolutions(m, cs)) == cs;
  }

  /** The first entry of `parse(s)` is the field's first code with its
      resolution, and there is none exactly when the field has no code. */
  lemma ParseFirstEntry(m: OMap<MatchNode>, s: string)
    ensures Parse(m, s) == [] <==> Codes(Units(s)) == []
    ensures Parse(m, s) != [] ==>
              Parse(m, s)[0] == (Codes(Units(s))[0], ParseCode(m, Codes(Units(s))[0]))
  {
    var cs := Codes(Units(s));
    var r := Parse(m, s);
    ParseKeyOrder(m, s);
    FreshHead(cs);
    if r != [] {
      assert r[0].0 == cs[0];
      assert HasKey(r, cs[0]);
      ParseValues(m, s, cs[0]);
      GetAt(r, 0);
    }
  }

  /** A key of `parse(s)` is stripped, non-blank and holds no semicolon. */
  lemma ParseKeys(m: OMap<MatchNode>, s: string, k: string)
    requires HasKey(Parse(m, s), k)
    ensures k != [] && !IsSpace(k[0]) && !IsSpace(k[|k| - 1])
    ensures ';' !in k
  {
    ParseKeysExact(m, s, k);
    var us := Units(s);
    var j :| 0 <= j < |us| && k == Strip(us[j]);
    StripMeaning(us[j]);
    StripKeeps(us[j], ';');
  }

  /** Stripping adds no character. */
  lemma StripKeeps(u: string, c: char)
    requires c !in u
    ensures c !in Strip(u)
  {
    var i := SpaceRun(u, 0);
    var j := |u| - SpaceRunBack(u, i, |u|);
    assert Strip(u) == u[i..j];
  }

  /** The full-width semicolon separates codes exactly as `;` does. */
  lemma ParseFullWidth(m: OMap<MatchNode>, a: string, b: string)
    ensures Parse(m, a + [FullWidthSemicolon] + b) == Parse(m, a + ";" + b)
  {
    ReplaceCharAppend(a + [FullWidthSemicolon], b, FullWidthSemicolon, ";");
    ReplaceCharAppend(a, [FullWidthSemicolon], FullWidthSemicolon, ";");
    ReplaceCharAppend(a + ";", b, FullWidthSemicolon, ";");
    ReplaceCharAppend(a, ";", FullWidthSemicolon, ";");
  }

  /** A field with nothing but whitespace and semicolons parses to `{}`. */
  lemma ParseBlank(m: OMap<MatchNode>, s: string)
    requires forall j :: 0 <= j < |Units(s)| ==> AllSpace(Units(s)[j])
    ensures Parse(m, s) == []
  {
    CodesBlank(Units(s));
  }

  lemma {:induction false} CodesBlank(us: seq<string>)
    requires forall j :: 0 <= j < |us| ==> AllSpace(us[j])
    ensures Codes(us) == []
  {
    if us != [] {
      CodesBlank(us[1..]);
    }
  }

  /** Joining stripped, semicolon-free codes with `;` and parsing gives
      exactly those codes back as keys ... */
  lemma ParseJoinedKeys(m: OMap<MatchNode>, codes: seq<string>, k: string)
    requires |codes| >= 1
    requires forall i :: 0 <= i < |codes| ==> ';' !in codes[i] && FullWidthSemicolon !in codes[i]
    requires forall i :: 0 <= i < |codes| ==> Strip(codes[i]) == codes[i] != []
    ensures HasKey(Parse(m, Join(codes, ';')), k) <==> k in codes
  {
    UnitsOfJoin(codes);
    ParseOfCleanUnits(m, Join(codes, ';'), k);
  }

  /** When every piece of `s` is already stripped and non-blank, the keys of
      `parse(s)` are the pieces. */
  lemma ParseOfCleanUnits(m: OMap<MatchNode>, s: string, k: string)
    requires forall i :: 0 <= i < |Units(s)| ==> Strip(Units(s)[i]) == Units(s)[i] != []
    ensures HasKey(Parse(m, s), k) <==> k in Units(s)
  {
    var us := Units(s);
    ParseKeysExact(m, s, k);
    if k in us {
      var j :| 0 <= j < |us| && us[j] == k;
      assert k == Strip(us[j]);
    }
  }

  /** ... each with its resolution. */
  lemma ParseJoinedValues(m: OMap<MatchNode>, codes: seq<string>, k: string)
    requires |codes| >= 1
    requires forall i :: 0 <= i < |codes| ==> ';' !in codes[i] && FullWidthSemicolon !in codes[i]
    requires forall i :: 0 <= i < |codes| ==> Strip(codes[i]) == codes[i] != []
    requires k in codes
    ensures Get(Parse(m, Join(codes, ';')), k) == Some(ParseCode(m, k))
  {
    ParseJoinedKeys(m, codes, k);
    ParseValues(m, Join(codes, ';'), k);
  }

  /** The pieces of a `;`-join of semicolon-free codes are the codes. */
  lemma UnitsOfJoin(codes: seq<string>)
    requires |codes| >= 1
    requires forall i :: 0 <= i < |codes| ==> ';' !in codes[i] && FullWidthSemicolon !in codes[i]
    ensures Units(Join(codes, ';')) == codes
  {
    JoinFree(codes, ';', FullWidthSemicolon);
    SplitJoin(codes, ';');
  }

  /** Joining pieces free of `c` with a separator other than `c` gives a
      string free of `c`. */
  lemma {:induction false} JoinFree(parts: seq<string>, sep: char, c: char)
    requires sep != c
    requires forall i :: 0 <= i < |parts| ==> c !in parts[i]
    ensures c !in Join(parts, sep)
  {
    if |parts| > 1 {
      JoinFree(parts[1..], sep, c);
    }
  }
}
