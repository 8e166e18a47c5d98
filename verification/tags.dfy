/** The classification tag of a catalogue record.

    With the plugin's settings (tags are not kept pure, classification codes
    are added to the tags and converted to names, parse level 2) the record's
    classification field is parsed; the first code's resolution decides the
    tag: the level-2 name from the information table when the code resolves
    two or more levels deep, the deepest resolved code when it resolves
    fewer levels, and the raw field when nothing parses at all. */
module Tags {
  import opened Options
  import opened OrderedMaps
  import opened Taxonomy
  import opened Resolver
  import opened Parser
  import opened ClcInfo
  import opened Cleaner

  /** `CLC_PARSE_LEVEL`. */
  const ClcParseLevel: nat := 2

  /** What the classification branch does to the tag string: nothing, append
      one tag, or raise `IndexError` (a stored name path shorter than the
      parse level), which nothing in the branch catches. */
  datatype TagOutcome = NoTag | AddTag(tag: string) | IndexError

  /** The tag for the resolution `codes` of the first parsed code. */
  function TagOfCodes(codes: seq<string>, info: OMap<Info>): (r: TagOutcome)
    ensures |codes| == 0 ==> r == NoTag
    ensures 0 < |codes| < ClcParseLevel ==> r == AddTag(codes[|codes| - 1])
    ensures |codes| >= ClcParseLevel && !HasKey(info, codes[ClcParseLevel - 1]) ==> r == NoTag
    ensures |codes| >= ClcParseLevel && HasKey(info, codes[ClcParseLevel - 1]) ==>
              var v := GetClcInfoByCode(info, codes[ClcParseLevel - 1]).value;
              r == (if |v.namePath| >= ClcParseLevel then AddTag(v.namePath[ClcParseLevel - 1]) else IndexError)
  {
    if |codes| >= ClcParseLevel then
      match GetClcInfoByCode(info, codes[ClcParseLevel - 1])
      case None => NoTag
      case Some(v) =>
        if ClcParseLevel - 1 < |v.namePath| then AddTag(v.namePath[ClcParseLevel - 1]) else IndexError
    else if 0 < |codes| then AddTag(codes[|codes| - 1])
    else NoTag
  }

  /** The classification branch, given `parsed = Parser.parse(clc_code)`,
      the information table `info` and the raw field `clcCode`; the
      resolution used is that of the first key of `parsed`. */
  function ClcTag(parsed: OMap<seq<string>>, info: OMap<Info>, clcCode: string): (r: TagOutcome)
    ensures parsed == [] ==> r == AddTag(clcCode)
    ensures parsed != [] ==> r == TagOfCodes(parsed[0].1, info)
  {
    if parsed == [] then AddTag(clcCode) else TagOfCodes(parsed[0].1, info)
  }

  /** The branch looks at the first classification unit of the raw field
      only: the raw field itself when no unit holds a code, otherwise the
      tag for the resolution of the first unit's code. */
  lemma ClcTagFirstUnit(m: OMap<MatchNode>, info: OMap<Info>, raw: string)
    ensures var cs := Codes(Units(raw));
      ClcTag(Parse(m, raw), info, raw)
        == if cs == [] then AddTag(raw) else TagOfCodes(ParseCode(m, cs[0]), info)
  {
    ParseFirstEntry(m, raw);
  }

  /** With the tables loaded from `tree`: when the first unit resolves to
      first-level node `f` and then to its child `s`, and no node written
      after `s` shares its code, the tag is the name of `s`. */
  lemma ClcTagSecondLevel(a: seq<Node>, f: Node, b: seq<Node>, c: seq<Node>, s: Node, d: seq<Node>, raw: string)
    requires f.children == c + [s] + d
    requires f.code != s.code
    requires forall x :: x in d ==> x.code != s.code && forall y :: y in x.children ==> y.code != s.code
    requires !InTopLevels(b, s.code)
    requires Codes(Units(raw)) != []
    requires var r := ParseCode(LoadTree(a + [f] + b), Codes(Units(raw))[0]);
      |r| >= 2 && r[0] == f.code && r[1] == s.code
    ensures ClcTag(Parse(LoadTree(a + [f] + b), raw), LoadInfo(a + [f] + b), raw) == AddTag(s.name)
  {
    var tree := a + [f] + b;
    ClcTagFirstUnit(LoadTree(tree), LoadInfo(tree), raw);
    SecondLevelWins(a, f, b, c, s, d);
  }

  /** With the tables loaded from `tree`: when the first unit resolves one
      level deep, the tag is the code of the first node of `tree` whose
      first-level pattern accepts the unit's cleaned code. */
  lemma ClcTagFirstLevel(tree: seq<Node>, raw: string)
    requires Codes(Units(raw)) != []
    requires |ParseCode(LoadTree(tree), Codes(Units(raw))[0])| == 1
    ensures var code := Clean(Codes(Units(raw))[0]);
      var i := FirstAccepting(CodesOf(tree), code);
      i < |tree| && ClcTag(Parse(LoadTree(tree), raw), LoadInfo(tree), raw) == AddTag(tree[i].code)
  {
    var m, first := LoadTree(tree), Codes(Units(raw))[0];
    var r := ParseCode(m, first);
    ClcTagFirstUnit(m, LoadInfo(tree), raw);
    assert ClcTag(Parse(m, raw), LoadInfo(tree), raw) == AddTag(r[0]);
    FirstLevelResolution(tree, first);
  }

  /** A second-level code of the definition repeats a first-level one. */
  predicate LevelClash(tree: seq<Node>)
  {
    exists f, g, s :: f in tree && g in tree && s in g.children && f.code == s.code
  }

  /** A tag taken from a path is a first-level code or a second-level name. */
  predicate TagFromTree(tree: seq<Node>, tag: string)
  {
    || (exists f :: f in tree && tag == f.code)
    || (exists f, s :: f in tree && s in f.children && tag == s.name)
  }

  /** With the tables loaded from `tree`: the tag is the raw field when
      nothing parses; otherwise an added tag is a first-level code or the
      name of a second-level node, and `IndexError` happens only when a
      second-level code repeats a first-level one. */
  lemma ClcTagFromTree(tree: seq<Node>, raw: string)
    ensures var parsed := Parse(LoadTree(tree), raw);
      var r := ClcTag(parsed, LoadInfo(tree), raw);
      && (parsed == [] ==> r == AddTag(raw))
      && (parsed != [] && r.AddTag? ==> TagFromTree(tree, r.tag))
      && (r == IndexError ==> LevelClash(tree))
  {
    var m := LoadTree(tree);
    var parsed := Parse(m, raw);
    if parsed != [] {
      var codes := FirstResolution(tree, raw);
      TagOfPathAdded(tree, codes);
      TagOfPathIndexError(tree, codes);
    }
  }

  /** The first value of `parse(raw)` is a path of the definition. */
  lemma FirstResolution(tree: seq<Node>, raw: string) returns (codes: seq<string>)
    requires Parse(LoadTree(tree), raw) != []
    ensures codes == Parse(LoadTree(tree), raw)[0].1 && IsTreePath(tree, codes)
  {
    var m := LoadTree(tree);
    var parsed := Parse(m, raw);
    var key := parsed[0].0;
    codes := parsed[0].1;
    GetAt(parsed, 0);
    ParseValues(m, raw, key);
    ParseCodeFollowsTree(tree, key);
  }

  /** A tag added for a path of the definition comes from the definition. */
  lemma TagOfPathAdded(tree: seq<Node>, codes: seq<string>)
    requires IsTreePath(tree, codes)
    ensures var r := TagOfCodes(codes, LoadInfo(tree)); r.AddTag? ==> TagFromTree(tree, r.tag)
  {
    var info := LoadInfo(tree);
    if |codes| >= 2 {
      if GetClcInfoByCode(info, codes[1]).Some? {
        LookupDescribes(tree, codes[1]);
        var v := GetClcInfoByCode(info, codes[1]).value;
        if |v.namePath| >= 2 {
          NameAtLevelTwo(tree, v);
        }
      }
    } else if |codes| == 1 {
      var f :| f in tree && f.code == codes[0];
    }
  }

  /** For a path of the definition, `IndexError` needs a level clash. */
  lemma TagOfPathIndexError(tree: seq<Node>, codes: seq<string>)
    requires IsTreePath(tree, codes)
    ensures TagOfCodes(codes, LoadInfo(tree)) == IndexError ==> LevelClash(tree)
  {
    var info := LoadInfo(tree);
    if TagOfCodes(codes, info) == IndexError {
      var f :| f in tree && f.code == codes[0] && IsPathBelow(f, codes[1..]);
      var s :| s in f.children && s.code == codes[1];
      LookupDescribes(tree, codes[1]);
      var v := GetClcInfoByCode(info, codes[1]).value;
      DescribedShape(tree, v);
      var g :| g in tree && g.code == v.code;
      assert g.code == s.code;
    }
  }

  /** The second name on a path of two or three levels names a second-level
      node. */
  lemma NameAtLevelTwo(tree: seq<Node>, v: Info)
    requires Described(tree, v) && |v.namePath| >= 2
    ensures exists f, s :: f in tree && s in f.children && v.namePath[1] == s.name
  {
    if exists f, s :: f in tree && s in f.children && v == InfoAt2(f, s) {
      var f, s :| f in tree && s in f.children && v == InfoAt2(f, s);
    } else {
      var f, s, t :| f in tree && s in f.children && t in s.children && v == InfoAt3(f, s, t);
    }
  }
}
