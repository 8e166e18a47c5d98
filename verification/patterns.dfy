/** The per-node matching patterns of the resolver.

    A node's pattern is the regular expression `^` + its codes joined by `|`,
    with `.`, `+` and `-` escaped, and it is applied with Python's
    `re.search`. Rather than a general regular-expression engine, this module
    gives the small fragment of Python's `re` syntax such patterns are written
    in (anchor `^`, alternation `|`, literal characters, backslash escapes of
    punctuation, one-character classes such as `[+]` and `[\-]`), its
    `re.search` meaning, and the theorem that says what a built pattern
    accepts: because `^` binds only to the first alternative, a string is
    accepted iff it starts with the first code or contains a later one. */
module Patterns {
  import opened Options
  import opened Strings

  // ---------------------------------------------------------------------------
  // The regular-expression fragment and its re.search meaning
  // ---------------------------------------------------------------------------

  /** Characters with a meaning of their own in Python's `re` syntax. */
  predicate IsMeta(c: char)
  {
    c in ".^$*+?{}[]\\|()"
  }

  predicate IsAsciiAlnum(c: char)
  {
    ('0' <= c <= '9') || ('A' <= c <= 'Z') || ('a' <= c <= 'z')
  }

  /** One element of a branch: the start-of-string anchor or one literal. */
  datatype Atom = Caret | Lit(c: char)

  type Branch = seq<Atom>

  /** Reads one atom at the head of a pattern; returns it and the number of
      pattern characters it spans, or `None` for syntax outside the fragment. */
  function ParseAtom(p: string): (r: Option<(Atom, nat)>)
    requires p != [] && p[0] != '|'
    ensures r.Some? ==> 1 <= r.value.1 <= |p|
  {
    if p[0] == '^' then Some((Caret, 1))
    else if p[0] == '\\' then
      if |p| >= 2 && !IsAsciiAlnum(p[1]) then Some((Lit(p[1]), 2)) else None
    else if p[0] == '[' then
      if |p| >= 3 && p[2] == ']' && p[1] !in "\\]^[" then Some((Lit(p[1]), 3))
      else if |p| >= 4 && p[1] == '\\' && !IsAsciiAlnum(p[2]) && p[3] == ']' then Some((Lit(p[2]), 4))
      else None
    else if IsMeta(p[0]) then None
    else Some((Lit(p[0]), 1))
  }

  /** Reads a pattern of the fragment as its list of alternatives. */
  function Compile(p: string): (r: Option<seq<Branch>>)
    ensures r.Some? ==> |r.value| >= 1
    decreases |p|
  {
    if p == [] then Some([[]])
    else if p[0] == '|' then
      match Compile(p[1..])
      case None => None
      case Some(bs) => Some([[]] + bs)
    else
      match ParseAtom(p)
      case None => None
      case Some((a, n)) =>
        match Compile(p[n..])
        case None => None
        case Some(bs) => Some([[a] + bs[0]] + bs[1..])
  }

  /** Branch `b` matches `s` from index `i` on (it need not reach the end). */
  predicate MatchAt(b: Branch, s: string, i: nat)
    requires i <= |s|
    decreases |b|
  {
    if b == [] then true
    else match b[0]
      case Caret => i == 0 && MatchAt(b[1..], s, i)
      case Lit(c) => i < |s| && s[i] == c && MatchAt(b[1..], s, i + 1)
  }

  /** `re.search`: some alternative matches from some position. */
  predicate Search(alts: seq<Branch>, s: string)
  {
    exists i, k :: 0 <= i <= |s| && 0 <= k < |alts| && MatchAt(alts[k], s, i)
  }

  /** `re.search(pattern, s)` for a pattern of the fragment. */
  predicate PatternMatches(pattern: string, s: string)
  {
    match Compile(pattern)
    case Some(alts) => Search(alts, s)
    case None => false
  }

  // ---------------------------------------------------------------------------
  // Building a node's pattern from its codes
  // ---------------------------------------------------------------------------

  /** A character that, after the escaping below, stands for itself. */
  predicate IsCodeChar(c: char)
  {
    !IsMeta(c) || c == '.' || c == '+'
  }

  predicate IsPlainCode(s: string)
  {
    forall i :: 0 <= i < |s| ==> IsCodeChar(s[i])
  }

  predicate AllPlain(codes: seq<string>)
  {
    forall k :: 0 <= k < |codes| ==> IsPlainCode(codes[k])
  }

  /** The three `replace` calls applied to the joined codes. */
  function Escape(s: string): string
  {
    ReplaceChar(ReplaceChar(ReplaceChar(s, '.', "\\."), '+', "[+]"), '-', "[\\-]")
  }

  /** `build_regex_from_codes`: `^` followed by the escaped codes joined by `|`. */
  function BuildPattern(codes: seq<string>): (p: string)
    ensures |p| >= 1 && p[0] == '^'
  {
    "^" + Escape(Join(codes, '|'))
  }

  // ---------------------------------------------------------------------------
  // What a built pattern accepts
  // ---------------------------------------------------------------------------

  predicate StartsWith(s: string, c: string)
  {
    |c| <= |s| && s[..|c|] == c
  }

  predicate OccursAt(c: string, s: string, i: nat)
  {
    i + |c| <= |s| && s[i..i + |c|] == c
  }

  predicate Occurs(c: string, s: string)
  {
    exists i :: 0 <= i <= |s| && OccursAt(c, s, i)
  }

  /** The intended reading of a node's codes under `re.search`: with no codes
      the pattern is the bare anchor and accepts everything; otherwise the
      first code must be a prefix and any later one may occur anywhere. */
  predicate CodesAccept(codes: seq<string>, s: string)
  {
    || |codes| == 0
    || StartsWith(s, codes[0])
    || exists k :: 1 <= k < |codes| && Occurs(codes[k], s)
  }

  /** The pattern built from `codes` accepts exactly what `CodesAccept` says. */
  lemma BuildPatternMeaning(codes: seq<string>, s: string)
    requires AllPlain(codes)
    ensures PatternMatches(BuildPattern(codes), s) <==> CodesAccept(codes, s)
  {
    var alts := CompileBuildPattern(codes);
    if |codes| == 0 {
      assert MatchAt(alts[0], s, 0);
    } else {
      if StartsWith(s, codes[0]) {
        CaretLitsMatch(codes[0], s, 0);
        assert MatchAt(alts[0], s, 0);
      } else if k :| 1 <= k < |codes| && Occurs(codes[k], s) {
        var i :| 0 <= i <= |s| && OccursAt(codes[k], s, i);
        CaretLitsMatch(codes[k], s, i);
        assert MatchAt(alts[k], s, i);
      }
      if Search(alts, s) {
        var i, k :| 0 <= i <= |s| && 0 <= k < |alts| && MatchAt(alts[k], s, i);
        CaretLitsMatch(codes[k], s, i);
        if k == 0 {
          assert StartsWith(s, codes[0]);
        } else {
          assert Occurs(codes[k], s);
        }
      }
    }
  }

  /** A node's pattern accepts every string that starts with one of its codes
      (the match-tree invariant: a subtree's pattern accepts its own codes). */
  lemma BuildPatternAcceptsOwnCodes(codes: seq<string>, k: nat, s: string)
    requires AllPlain(codes)
    requires k < |codes| && StartsWith(s, codes[k])
    ensures PatternMatches(BuildPattern(codes), s)
  {
    if k > 0 {
      assert OccursAt(codes[k], s, 0);
    }
    BuildPatternMeaning(codes, s);
  }

  // ---------------------------------------------------------------------------
  // Proof: compiling a built pattern
  // ---------------------------------------------------------------------------

  /** A code read as a branch of literals. */
  function Lits(c: string): (b: Branch)
    ensures |b| == |c|
    ensures forall i :: 0 <= i < |c| ==> b[i] == Lit(c[i])
  {
    if c == [] then [] else [Lit(c[0])] + Lits(c[1..])
  }

  function LitBranches(codes: seq<string>): (bs: seq<Branch>)
    ensures |bs| == |codes|
    ensures forall k :: 0 <= k < |codes| ==> bs[k] == Lits(codes[k])
  {
    if codes == [] then [] else [Lits(codes[0])] + LitBranches(codes[1..])
  }

  function EscapeChar(c: char): string
  {
    if c == '.' then "\\." else if c == '+' then "[+]" else if c == '-' then "[\\-]" else [c]
  }

  function EscapeEach(s: string): string
  {
    if s == [] then [] else EscapeChar(s[0]) + EscapeEach(s[1..])
  }

  lemma {:induction false} EscapeEachAppend(a: string, b: string)
    ensures EscapeEach(a + b) == EscapeEach(a) + EscapeEach(b)
  {
    if a == [] {
      assert a + b == b;
    } else {
      assert (a + b)[1..] == a[1..] + b;
      EscapeEachAppend(a[1..], b);
    }
  }

  /** The three successive `replace` calls escape each character on its own. */
  lemma {:induction false} EscapeIsCharwise(s: string)
    ensures Escape(s) == EscapeEach(s)
  {
    if s != [] {
      var c := s[0];
      assert s == [c] + s[1..];
      ReplaceCharAppend([c], s[1..], '.', "\\.");
      var a1 := ReplaceChar([c], '.', "\\.");
      var b1 := ReplaceChar(s[1..], '.', "\\.");
      ReplaceCharAppend(a1, b1, '+', "[+]");
      var a2 := ReplaceChar(a1, '+', "[+]");
      var b2 := ReplaceChar(b1, '+', "[+]");
      ReplaceCharAppend(a2, b2, '-', "[\\-]");
      var a3 := ReplaceChar(a2, '-', "[\\-]");
      EscapeCharByReplace(c);
      assert a3 == EscapeChar(c);
      EscapeIsCharwise(s[1..]);
    }
  }

  lemma EscapeCharByReplace(c: char)
    ensures ReplaceChar(ReplaceChar(ReplaceChar([c], '.', "\\."), '+', "[+]"), '-', "[\\-]") == EscapeChar(c)
  {
    var a1 := ReplaceChar([c], '.', "\\.");
    assert a1 == (if c == '.' then "\\." else [c]) by {
      assert ReplaceChar([c], '.', "\\.") == (if c == '.' then "\\." else [c]) + ReplaceChar([], '.', "\\.");
    }
    var a2 := ReplaceChar(a1, '+', "[+]");
    if c == '+' {
      assert a2 == "[+]" + ReplaceChar([], '+', "[+]");
    } else {
      assert '+' !in a1;
    }
    var a3 := ReplaceChar(a2, '-', "[\\-]");
    if c == '-' {
      assert a2 == [c];
      assert a3 == "[\\-]" + ReplaceChar([], '-', "[\\-]");
    } else {
      assert '-' !in a2;
    }
  }

  /** Compiling a pattern whose head is an atom. */
  lemma CompileAtomHead(p: string, a: Atom, n: nat, bs: seq<Branch>)
    requires p != [] && p[0] != '|'
    requires ParseAtom(p) == Some((a, n))
    requires Compile(p[n..]) == Some(bs)
    ensures Compile(p) == Some([[a] + bs[0]] + bs[1..])
  {
  }

  /** Compiling a pattern whose head is the alternation bar. */
  lemma CompileBarHead(p: string, bs: seq<Branch>)
    requires p != [] && p[0] == '|'
    requires Compile(p[1..]) == Some(bs)
    ensures Compile(p) == Some([[]] + bs)
  {
  }

  /** An escaped code character reads back as that character. */
  lemma ParseEscapedChar(x: char, tail: string)
    requires IsCodeChar(x)
    ensures var p := EscapeChar(x) + tail;
      p != [] && p[0] != '|' && ParseAtom(p) == Some((Lit(x), |EscapeChar(x)|))
  {
    var p := EscapeChar(x) + tail;
    if x == '.' {
      assert p[0] == '\\' && p[1] == '.';
    } else if x == '+' {
      assert p[0] == '[' && p[1] == '+' && p[2] == ']';
    } else if x == '-' {
      assert p[0] == '[' && p[1] == '\\' && p[2] == '-' && p[3] == ']';
    } else {
      assert p[0] == x && !IsMeta(x);
    }
  }

  /** An escaped code followed by the end of the pattern or by `|` reads as
      the code's literals prepended to the first alternative of the rest. */
  lemma {:induction false} CompileEscaped(c: string, rest: string, bs: seq<Branch>)
    requires IsPlainCode(c)
    requires rest == [] || rest[0] == '|'
    requires Compile(rest) == Some(bs)
    ensures Compile(EscapeEach(c) + rest) == Some([Lits(c) + bs[0]] + bs[1..])
  {
    if c == [] {
      assert EscapeEach(c) + rest == rest;
      assert |bs| >= 1;
      assert Lits(c) + bs[0] == bs[0];
      assert [bs[0]] + bs[1..] == bs;
    } else {
      CompileEscaped(c[1..], rest, bs);
      CompileEscapedCons(c, rest, bs);
    }
  }

  lemma CompileEscapedCons(c: string, rest: string, bs: seq<Branch>)
    requires c != [] && IsPlainCode(c)
    requires |bs| >= 1
    requires Compile(EscapeEach(c[1..]) + rest) == Some([Lits(c[1..]) + bs[0]] + bs[1..])
    ensures Compile(EscapeEach(c) + rest) == Some([Lits(c) + bs[0]] + bs[1..])
  {
    var x := c[0];
    var tail := EscapeEach(c[1..]) + rest;
    var bs' := [Lits(c[1..]) + bs[0]] + bs[1..];
    var p := EscapeEach(c) + rest;
    var n := |EscapeChar(x)|;
    EscapedHead(c, rest);
    ParseEscapedChar(x, tail);
    CompileAtomHead(p, Lit(x), n, bs');
    LitsCons(c, bs);
  }

  lemma EscapedHead(c: string, rest: string)
    requires c != []
    ensures EscapeEach(c) + rest == EscapeChar(c[0]) + (EscapeEach(c[1..]) + rest)
    ensures (EscapeEach(c) + rest)[|EscapeChar(c[0])|..] == EscapeEach(c[1..]) + rest
  {
    var a := EscapeChar(c[0]);
    var e := EscapeEach(c[1..]);
    assert EscapeEach(c) == a + e;
    ConcatShift(a, e, rest);
  }

  lemma ConcatShift(a: string, e: string, rest: string)
    ensures (a + e) + rest == a + (e + rest)
    ensures (a + (e + rest))[|a|..] == e + rest
  {
  }

  lemma LitsCons(c: string, bs: seq<Branch>)
    requires c != [] && |bs| >= 1
    ensures var bs' := [Lits(c[1..]) + bs[0]] + bs[1..];
      [[Lit(c[0])] + bs'[0]] + bs'[1..] == [Lits(c) + bs[0]] + bs[1..]
  {
    var bs' := [Lits(c[1..]) + bs[0]] + bs[1..];
    assert Lits(c) == [Lit(c[0])] + Lits(c[1..]);
    assert bs'[0] == Lits(c[1..]) + bs[0];
    assert bs'[1..] == bs[1..];
    assert [Lit(c[0])] + bs'[0] == Lits(c) + bs[0];
  }

  /** The escaped, `|`-joined codes read as one literal branch per code. */
  lemma {:induction false} CompileJoined(codes: seq<string>)
    requires |codes| >= 1 && AllPlain(codes)
    ensures Compile(EscapeEach(Join(codes, '|'))) == Some(LitBranches(codes))
  {
    if |codes| == 1 {
      assert Join(codes, '|') == codes[0];
      CompileEscaped(codes[0], [], [[]]);
      assert EscapeEach(codes[0]) + [] == EscapeEach(codes[0]);
      assert Lits(codes[0]) + [] == Lits(codes[0]);
      assert LitBranches(codes) == [Lits(codes[0])];
    } else {
      var c0 := codes[0];
      var tail := Join(codes[1..], '|');
      assert Join(codes, '|') == c0 + ("|" + tail);
      CompileJoined(codes[1..]);
      var rest := "|" + EscapeEach(tail);
      BarEscaped(c0, tail);
      assert rest[1..] == EscapeEach(tail);
      var bs := [[]] + LitBranches(codes[1..]);
      CompileBarHead(rest, LitBranches(codes[1..]));
      CompileEscaped(c0, rest, bs);
      assert Lits(c0) + bs[0] == Lits(c0);
      assert bs[1..] == LitBranches(codes[1..]);
      assert LitBranches(codes) == [Lits(c0)] + LitBranches(codes[1..]);
    }
  }

  lemma BarEscaped(c: string, tail: string)
    ensures EscapeEach(c + ("|" + tail)) == EscapeEach(c) + ("|" + EscapeEach(tail))
  {
    EscapeEachAppend(c, "|" + tail);
    EscapeEachAppend("|", tail);
    assert EscapeEach("|") == "|";
  }

  /** Compiling a built pattern: the anchor joins the first code's branch. */
  lemma CompileBuildPattern(codes: seq<string>) returns (alts: seq<Branch>)
    requires AllPlain(codes)
    ensures Compile(BuildPattern(codes)) == Some(alts)
    ensures |codes| == 0 ==> alts == [[Caret]]
    ensures |codes| >= 1 ==> alts == [[Caret] + Lits(codes[0])] + LitBranches(codes[1..])
  {
    var p := BuildPattern(codes);
    EscapeIsCharwise(Join(codes, '|'));
    assert p[1..] == EscapeEach(Join(codes, '|'));
    assert ParseAtom(p) == Some((Caret, 1));
    if |codes| == 0 {
      assert p[1..] == [];
      var e: seq<Branch> := [[]];
      CompileAtomHead(p, Caret, 1, e);
      alts := [[Caret]];
      assert [Caret] + e[0] == [Caret];
      assert e[1..] == [];
      assert [[Caret] + e[0]] + e[1..] == [[Caret]];
    } else {
      CompileJoined(codes);
      var bs := LitBranches(codes);
      CompileAtomHead(p, Caret, 1, bs);
      alts := [[Caret] + bs[0]] + bs[1..];
      assert bs[1..] == LitBranches(codes[1..]);
    }
  }

  /** A literal branch matches exactly where its code occurs. */
  lemma {:induction false} LitsMatch(c: string, s: string, i: nat)
    requires i <= |s|
    ensures MatchAt(Lits(c), s, i) <==> OccursAt(c, s, i)
  {
    if c != [] && i < |s| {
      LitsMatch(c[1..], s, i + 1);
      OccursAtCons(c, s, i);
      assert Lits(c)[0] == Lit(c[0]) && Lits(c)[1..] == Lits(c[1..]);
    }
  }

  /** A code occurs at `i` when its first character is there and the rest
      follows. */
  lemma OccursAtCons(c: string, s: string, i: nat)
    requires c != [] && i < |s|
    ensures OccursAt(c, s, i) <==> s[i] == c[0] && OccursAt(c[1..], s, i + 1)
  {
    if i + |c| <= |s| {
      assert s[i..i + |c|] == [s[i]] + s[i + 1..i + 1 + |c[1..]|];
      assert c == [c[0]] + c[1..];
    }
  }

  /** With the anchor in front, a literal branch matches only at the start,
      and there exactly when the string starts with the code. */
  lemma CaretLitsMatch(c: string, s: string, i: nat)
    requires i <= |s|
    ensures MatchAt(Lits(c), s, i) <==> OccursAt(c, s, i)
    ensures MatchAt([Caret] + Lits(c), s, i) <==> i == 0 && StartsWith(s, c)
  {
    LitsMatch(c, s, i);
    assert ([Caret] + Lits(c))[1..] == Lits(c);
    if i == 0 {
      assert OccursAt(c, s, 0) <==> StartsWith(s, c);
    }
  }
}
