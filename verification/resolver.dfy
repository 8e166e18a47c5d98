/** The match tree and code resolution.

    `load_tree_json` turns the taxonomy definition into a tree of matchers,
    three levels deep: a first-level node's pattern is built from its own
    code only, a second- or third-level node's pattern from every code its
    subtree stands for. `parse_code` cleans a raw code and walks the tree,
    at each level taking the first child, in definition order, whose pattern
    accepts the cleaned code, and stops at the first level where none does. */
module Resolver {
  import opened Options
  import opened OrderedMaps
  import opened Patterns
  import opened Taxonomy
  import opened Cleaner
  import opened RangeExpand

  /** A `{'regex': ..., 'children': {...}}` value of the match tree. */
  datatype MatchNode = MatchNode(regex: string, children: OMap<MatchNode>)

  // ---------------------------------------------------------------------------
  // load_tree_json
  // ---------------------------------------------------------------------------

  /** The match node of definition node `n` at depth `level`. */
  function Load(n: Node, level: nat): (v: MatchNode)
    requires 1 <= level <= 3
    decreases n, 1
  {
    MatchNode(
      if level == 1 then BuildPattern([n.code]) else BuildPattern(Collect(n)),
      if level == 3 then [] else PutAll([], LoadAll(n.children, level + 1)))
  }

  /** The assignments `result[node['code']] = value`, in definition order. */
  function LoadAll(ns: seq<Node>, level: nat): (es: seq<(string, MatchNode)>)
    requires 1 <= level <= 3
    ensures |es| == |ns|
    ensures forall i :: 0 <= i < |ns| ==> es[i].0 == ns[i].code
    decreases ns, 0
  {
    if ns == [] then [] else [(ns[0].code, Load(ns[0], level))] + LoadAll(ns[1..], level)
  }

  /** The value assigned to the `i`-th code is loaded from the `i`-th node. */
  lemma {:induction false} LoadAllValue(ns: seq<Node>, level: nat, i: nat)
    requires 1 <= level <= 3 && i < |ns|
    ensures LoadAll(ns, level)[i].1 == Load(ns[i], level)
  {
    if i > 0 {
      LoadAllValue(ns[1..], level, i - 1);
    }
  }

  /** `load_tree_json(tree)`. */
  function LoadTree(tree: seq<Node>): (m: OMap<MatchNode>)
    ensures DistinctKeys(m)
  {
    PutAll([], LoadAll(tree, 1))
  }

  /** The children map of a node's entry, `{}` when the key is absent
      (`.get(key, {}).get('children', {})`). */
  function ChildrenOf(m: OMap<MatchNode>, k: string): (c: OMap<MatchNode>)
    ensures Get(m, k).None? ==> c == []
    ensures Get(m, k).Some? ==> c == Get(m, k).value.children
  {
    match Get(m, k)
    case None => []
    case Some(v) => v.children
  }

  /** A key of a loaded level is the code of one of the level's definition
      nodes, and its value is the match node loaded from that definition node
      (the last one, when several share the code). */
  lemma LoadedEntry(ns: seq<Node>, level: nat, c: string)
    requires 1 <= level <= 3
    ensures Get(PutAll([], LoadAll(ns, level)), c).Some? <==> exists i :: 0 <= i < |ns| && ns[i].code == c
    ensures Get(PutAll([], LoadAll(ns, level)), c).Some? ==>
              exists i :: && 0 <= i < |ns| && ns[i].code == c
                          && Get(PutAll([], LoadAll(ns, level)), c).value == Load(ns[i], level)
                          && forall j :: i < j < |ns| ==> ns[j].code != c
  {
    LoadedKey(ns, level, c);
    if Get(PutAll([], LoadAll(ns, level)), c).Some? {
      LoadedValue(ns, level, c);
    }
  }

  lemma LoadedKey(ns: seq<Node>, level: nat, c: string)
    requires 1 <= level <= 3
    ensures Get(PutAll([], LoadAll(ns, level)), c).Some? <==> exists i :: 0 <= i < |ns| && ns[i].code == c
  {
    var es := LoadAll(ns, level);
    PutAllFresh(es, c);
    if exists i :: 0 <= i < |ns| && ns[i].code == c {
      var i :| 0 <= i < |ns| && ns[i].code == c;
      assert es[i].0 == c;
    }
  }

  lemma LoadedValue(ns: seq<Node>, level: nat, c: string)
    requires 1 <= level <= 3
    requires Get(PutAll([], LoadAll(ns, level)), c).Some?
    ensures exists i :: && 0 <= i < |ns| && ns[i].code == c
                        && Get(PutAll([], LoadAll(ns, level)), c).value == Load(ns[i], level)
                        && forall j :: i < j < |ns| ==> ns[j].code != c
  {
    var es := LoadAll(ns, level);
    PutAllFresh(es, c);
    var v := LastValue(es, c).value;
    var i :| 0 <= i < |es| && es[i] == (c, v) && forall j :: i < j < |es| ==> es[j].0 != c;
    LoadAllValue(ns, level, i);
  }

  /** The codes of `ns`, in definition order. */
  function CodesOf(ns: seq<Node>): (cs: seq<string>)
    ensures |cs| == |ns|
    ensures forall i :: 0 <= i < |ns| ==> cs[i] == ns[i].code
  {
    if ns == [] then [] else [ns[0].code] + CodesOf(ns[1..])
  }

  /** The keys of a loaded level are the codes of its definition nodes, each
      once, in the order of their first occurrence. */
  lemma LoadedKeyOrder(ns: seq<Node>, level: nat)
    requires 1 <= level <= 3
    ensures KeySeq(PutAll([], LoadAll(ns, level))) == Fresh(CodesOf(ns), [])
  {
    PutAllFreshKeys(LoadAll(ns, level));
    assert KeySeq(LoadAll(ns, level)) == CodesOf(ns);
  }

  /** A first-level pattern accepts exactly the codes that begin with the
      node's own code. */
  lemma FirstLevelPattern(n: Node, s: string)
    requires IsPlainCode(n.code)
    ensures PatternMatches(Load(n, 1).regex, s) <==> StartsWith(s, n.code)
  {
    BuildPatternMeaning([n.code], s);
  }

  /** A deeper pattern accepts what the subtree's collected codes accept. */
  lemma DeeperLevelPattern(n: Node, level: nat, s: string)
    requires 2 <= level <= 3
    requires AllPlain(Collect(n))
    ensures PatternMatches(Load(n, level).regex, s) <==> CodesAccept(Collect(n), s)
  {
    BuildPatternMeaning(Collect(n), s);
  }

  /** The match-tree invariant: a deeper node's pattern accepts every code
      that begins with a code of its subtree. */
  lemma DeeperLevelAcceptsSubtree(n: Node, level: nat, c: string, s: string)
    requires 2 <= level <= 3
    requires AllPlain(Collect(n))
    requires c in Flat(n) && StartsWith(s, c)
    ensures PatternMatches(Load(n, level).regex, s)
  {
    CollectContains(n, c);
    var k :| 0 <= k < |Collect(n)| && Collect(n)[k] == c;
    BuildPatternAcceptsOwnCodes(Collect(n), k, s);
  }

  /** A node whose code stands for no codes and which has no children gets
      the bare pattern `^`, which accepts every string. */
  lemma EmptyNodeAcceptsAll(n: Node, level: nat, s: string)
    requires 2 <= level <= 3
    requires Expand(n.code) == [] && n.children == []
    ensures PatternMatches(Load(n, level).regex, s)
  {
    CollectLeaf(n);
    assert Collect(n) == [];
    BuildPatternMeaning([], s);
  }

  // ---------------------------------------------------------------------------
  // run_sub_regex_on_code
  // ---------------------------------------------------------------------------

  /** The position of the first entry whose pattern accepts `code`, or `|m|`. */
  function FirstMatchIndex(code: string, m: OMap<MatchNode>): (i: nat)
    ensures i <= |m|
    ensures i < |m| ==> PatternMatches(m[i].1.regex, code)
    ensures forall j :: 0 <= j < i ==> !PatternMatches(m[j].1.regex, code)
  {
    if m == [] then 0
    else if PatternMatches(m[0].1.regex, code) then 0
    else 1 + FirstMatchIndex(code, m[1..])
  }

  /** `run_sub_regex_on_code(code, m)`: the key of the first entry, in
      insertion order, whose pattern `re.search`es `code`; `None` (the
      source's `False`) when `m` is empty or no pattern does. */
  function FirstMatch(code: string, m: OMap<MatchNode>): (r: Option<string>)
    ensures r.Some? ==> HasKey(m, r.value)
  {
    var i := FirstMatchIndex(code, m);
    if i < |m| then Some(m[i].0) else None
  }

  /** The search finds nothing exactly when no entry's pattern accepts the
      code; otherwise it returns the key of the first entry whose pattern
      does. */
  lemma FirstMatchMeaning(code: string, m: OMap<MatchNode>)
    ensures FirstMatch(code, m).None? <==> forall i :: 0 <= i < |m| ==> !PatternMatches(m[i].1.regex, code)
    ensures FirstMatch(code, m).Some? ==>
              exists i :: && 0 <= i < |m| && m[i].0 == FirstMatch(code, m).value
                          && PatternMatches(m[i].1.regex, code)
                          && forall j :: 0 <= j < i ==> !PatternMatches(m[j].1.regex, code)
  {
  }

  // ---------------------------------------------------------------------------
  // parse_code
  // ---------------------------------------------------------------------------

  /** The walk down the match tree for an already cleaned code. */
  function Resolve(m: OMap<MatchNode>, code: string): (r: seq<string>)
    ensures |r| <= 3
  {
    match FirstMatch(code, m)
    case None => []
    case Some(first) =>
      var level2 := ChildrenOf(m, first);
      match FirstMatch(code, level2)
      case None => [first]
      case Some(second) =>
        var level3 := ChildrenOf(level2, second);
        match FirstMatch(code, level3)
        case None => [first, second]
        case Some(third) => [first, second, third]
  }

  /** `parse_code(s)` against match tree `m`: the codes of the first, second
      and third level the cleaned code resolves to, as far as it resolves;
      `[]` when cleaning leaves nothing. */
  function ParseCode(m: OMap<MatchNode>, s: string): (r: seq<string>)
    ensures |r| <= 3
    ensures r != [] ==> Clean(s) != []
  {
    var code := Clean(s);
    if code == [] then [] else Resolve(m, code)
  }

  /** Each level of the result is the first match among the children of the
      level above, and the result stops exactly where a level has none. */
  lemma ResolveSteps(m: OMap<MatchNode>, code: string)
    ensures var r := Resolve(m, code);
      && (r == [] <==> FirstMatch(code, m).None?)
      && (|r| >= 1 ==> FirstMatch(code, m) == Some(r[0]))
      && (|r| >= 1 ==> (|r| >= 2 <==> FirstMatch(code, ChildrenOf(m, r[0])).Some?))
      && (|r| >= 2 ==> FirstMatch(code, ChildrenOf(m, r[0])) == Some(r[1]))
      && (|r| >= 2 ==> (|r| == 3 <==> FirstMatch(code, ChildrenOf(ChildrenOf(m, r[0]), r[1])).Some?))
      && (|r| == 3 ==> FirstMatch(code, ChildrenOf(ChildrenOf(m, r[0]), r[1])) == Some(r[2]))
  {
  }

  /** Resolution sees the cleaned code only: resolving a cleaned code gives
      the same result as resolving the raw one. */
  lemma ParseCodeCleaned(m: OMap<MatchNode>, s: string)
    ensures ParseCode(m, Clean(s)) == ParseCode(m, s)
  {
    CleanIdempotent(s);
  }

  // ---------------------------------------------------------------------------
  // Resolution against a loaded tree
  // ---------------------------------------------------------------------------

  /** `r` names a path from the root of the definition: a first-level node,
      then one of its children, then one of that child's children. */
  predicate IsTreePath(tree: seq<Node>, r: seq<string>)
  {
    && |r| <= 3
    && (|r| >= 1 ==> exists f :: f in tree && f.code == r[0] && IsPathBelow(f, r[1..]))
  }

  predicate IsPathBelow(f: Node, r: seq<string>)
  {
    |r| >= 1 ==> exists c :: c in f.children && c.code == r[0]
                             && (|r| >= 2 ==> exists g :: g in c.children && g.code == r[1])
  }

  /** Resolving a code against the tree loaded from `tree` yields a path of
      the definition, at most three levels deep. */
  lemma ParseCodeFollowsTree(tree: seq<Node>, s: string)
    ensures IsTreePath(tree, ParseCode(LoadTree(tree), s))
  {
    if Clean(s) != [] {
      ResolveFollowsTree(tree, Clean(s));
    }
  }

  lemma ResolveFollowsTree(tree: seq<Node>, code: string)
    ensures IsTreePath(tree, Resolve(LoadTree(tree), code))
  {
    var m := LoadTree(tree);
    var r := Resolve(m, code);
    ResolveSteps(m, code);
    if |r| >= 1 {
      StepDown(tree, 1, code);
      var f :| f in tree && f.code == r[0] && ChildrenOf(m, r[0]) == PutAll([], LoadAll(f.children, 2));
      if |r| >= 2 {
        var m2 := ChildrenOf(m, r[0]);
        StepDown(f.children, 2, code);
        var c :| c in f.children && c.code == r[1] && ChildrenOf(m2, r[1]) == PutAll([], LoadAll(c.children, 3));
        if |r| == 3 {
          StepDown(c.children, 3, code);
          var g :| g in c.children && g.code == r[2];
          PathBelowTwo(f, c, g, r[1..]);
        } else {
          PathBelowOne(f, c, r[1..]);
        }
      }
    }
  }

  lemma PathBelowOne(f: Node, c: Node, rest: seq<string>)
    requires c in f.children && rest == [c.code]
    ensures IsPathBelow(f, rest)
  {
  }

  lemma PathBelowTwo(f: Node, c: Node, g: Node, rest: seq<string>)
    requires c in f.children && g in c.children && rest == [c.code, g.code]
    ensures IsPathBelow(f, rest)
  {
  }

  /** One step down a loaded level: the key the search returns is the code of
      a definition node of that level, and its children map is loaded from
      that node's children. */
  lemma StepDown(ns: seq<Node>, level: nat, code: string)
    requires 1 <= level <= 3
    ensures var m := PutAll([], LoadAll(ns, level)); var k := FirstMatch(code, m);
      k.Some? ==> exists n :: && n in ns && n.code == k.value
                              && (level < 3 ==> ChildrenOf(m, k.value) == PutAll([], LoadAll(n.children, level + 1)))
  {
    var m := PutAll([], LoadAll(ns, level));
    var k := FirstMatch(code, m);
    if k.Some? {
      LoadedEntry(ns, level, k.value);
      var i :| 0 <= i < |ns| && ns[i].code == k.value && Get(m, k.value).value == Load(ns[i], level);
      assert ns[i] in ns;
    }
  }

  /** Whether the first-level pattern of a node with code `c` accepts
      `code`. */
  predicate AcceptedAtFirstLevel(c: string, code: string)
  {
    PatternMatches(BuildPattern([c]), code)
  }

  /** The position of the first code of `cs` whose first-level pattern
      accepts `code`, or `|cs|`. */
  function FirstAccepting(cs: seq<string>, code: string): (i: nat)
    ensures i <= |cs|
    ensures i < |cs| ==> AcceptedAtFirstLevel(cs[i], code)
    ensures forall j :: 0 <= j < i ==> !AcceptedAtFirstLevel(cs[j], code)
  {
    if cs == [] then 0
    else if AcceptedAtFirstLevel(cs[0], code) then 0
    else 1 + FirstAccepting(cs[1..], code)
  }

  /** The first accepting position is unique. */
  lemma {:induction false} FirstAcceptingIs(cs: seq<string>, code: string, j: nat)
    requires j <= |cs|
    requires j < |cs| ==> AcceptedAtFirstLevel(cs[j], code)
    requires forall l :: 0 <= l < j ==> !AcceptedAtFirstLevel(cs[l], code)
    ensures FirstAccepting(cs, code) == j
  {
    if cs != [] && j > 0 {
      FirstAcceptingIs(cs[1..], code, j - 1);
    }
  }

  /** Searching the fresh codes in order finds the first code of `cs` that
      is accepted, when no code already seen is: dropping repeats never
      changes which code a first-match search finds. */
  lemma {:induction false} FreshFirstAccepting(cs: seq<string>, seen: seq<string>, code: string)
    requires forall k :: k in seen ==> !AcceptedAtFirstLevel(k, code)
    ensures var f := Fresh(cs, seen); var i := FirstAccepting(cs, code); var j := FirstAccepting(f, code);
      && (j < |f| <==> i < |cs|)
      && (i < |cs| ==> f[j] == cs[i])
    decreases |cs|
  {
    if cs != [] && !AcceptedAtFirstLevel(cs[0], code) {
      var f := Fresh(cs, seen);
      assert FirstAccepting(cs, code) == 1 + FirstAccepting(cs[1..], code);
      if cs[0] in seen {
        assert f == Fresh(cs[1..], seen);
        FreshFirstAccepting(cs[1..], seen, code);
      } else {
        var f' := Fresh(cs[1..], seen + [cs[0]]);
        assert f == [cs[0]] + f' && f[1..] == f';
        assert FirstAccepting(f, code) == 1 + FirstAccepting(f', code);
        FreshFirstAccepting(cs[1..], seen + [cs[0]], code);
      }
    }
  }

  /** The first level of a resolution is decided by definition order: the
      first resolved code is the code of the first node of `tree` whose
      first-level pattern accepts the cleaned code, and nothing resolves
      when no node's pattern does. */
  lemma FirstLevelResolution(tree: seq<Node>, s: string)
    requires Clean(s) != []
    ensures var i := FirstAccepting(CodesOf(tree), Clean(s));
            var r := ParseCode(LoadTree(tree), s);
            && i <= |tree|
            && (r == [] <==> i == |tree|)
            && (i < |tree| ==> r != [] && r[0] == tree[i].code)
  {
    LoadedKeyOrder(tree, 1);
    FirstLevelRegexes(tree);
    FirstCodeOfFresh(LoadTree(tree), CodesOf(tree), s);
  }

  /** `FirstLevelResolution` for any first level whose keys are the fresh
      codes of `cs` and whose patterns are each key's own. */
  lemma FirstCodeOfFresh(m: OMap<MatchNode>, cs: seq<string>, s: string)
    requires Clean(s) != []
    requires KeySeq(m) == Fresh(cs, [])
    requires forall k :: 0 <= k < |m| ==> m[k].1.regex == BuildPattern([m[k].0])
    ensures var i := FirstAccepting(cs, Clean(s));
            var r := ParseCode(m, s);
            && (r == [] <==> i == |cs|)
            && (i < |cs| ==> r != [] && r[0] == cs[i])
  {
    ParseCodeHead(m, s);
    FirstMatchOfFresh(m, cs, Clean(s));
  }

  /** The first code of a resolution is the first-match search's result on
      the first level. */
  lemma ParseCodeHead(m: OMap<MatchNode>, s: string)
    requires Clean(s) != []
    ensures ParseCode(m, s) == [] <==> FirstMatch(Clean(s), m).None?
    ensures ParseCode(m, s) != [] ==> FirstMatch(Clean(s), m) == Some(ParseCode(m, s)[0])
  {
    ResolveSteps(m, Clean(s));
  }

  /** In a first-level map whose keys are the fresh codes of `cs` and whose
      patterns are each key's own, the first-match search finds the first
      code of `cs` whose pattern accepts `code`. */
  lemma FirstMatchOfFresh(m: OMap<MatchNode>, cs: seq<string>, code: string)
    requires KeySeq(m) == Fresh(cs, [])
    requires forall k :: 0 <= k < |m| ==> m[k].1.regex == BuildPattern([m[k].0])
    ensures var i := FirstAccepting(cs, code);
            && (FirstMatch(code, m).None? <==> i == |cs|)
            && (i < |cs| ==> FirstMatch(code, m) == Some(cs[i]))
  {
    var k := FirstMatchIndex(code, m);
    var ks := KeySeq(m);
    forall l | 0 <= l < |m|
      ensures AcceptedAtFirstLevel(ks[l], code) == PatternMatches(m[l].1.regex, code)
    {
    }
    FirstAcceptingIs(ks, code, k);
    FreshFirstAccepting(cs, [], code);
  }

  /** Every entry of the loaded first level holds the pattern of its own
      key. */
  lemma FirstLevelRegexes(tree: seq<Node>)
    ensures var m := LoadTree(tree);
      forall k :: 0 <= k < |m| ==> m[k].1.regex == BuildPattern([m[k].0])
  {
    var m := LoadTree(tree);
    forall k | 0 <= k < |m|
      ensures m[k].1.regex == BuildPattern([m[k].0])
    {
      GetAt(m, k);
      LoadedEntry(tree, 1, m[k].0);
    }
  }

  /** A key returned by the first-match search is a key of the map. */
  lemma FirstMatchIsKey(code: string, m: OMap<MatchNode>, k: string)
    requires FirstMatch(code, m) == Some(k)
    ensures Get(m, k).Some?
  {
  }

  /** The first level of a resolved code is the code of a first-level node
      that the cleaned code begins with. */
  lemma ParseCodeFirstLevel(tree: seq<Node>, s: string)
    requires forall f :: f in tree ==> IsPlainCode(f.code)
    requires ParseCode(LoadTree(tree), s) != []
    ensures StartsWith(Clean(s), ParseCode(LoadTree(tree), s)[0])
  {
    var m := LoadTree(tree);
    var code := Clean(s);
    var r := Resolve(m, code);
    ResolveSteps(m, code);
    FirstMatchMeaning(code, m);
    var i :| 0 <= i < |m| && m[i].0 == r[0] && PatternMatches(m[i].1.regex, code);
    GetAt(m, i);
    LoadedEntry(tree, 1, r[0]);
    var k :| 0 <= k < |tree| && tree[k].code == r[0] && Get(m, r[0]).value == Load(tree[k], 1);
    assert tree[k] in tree;
    FirstLevelPattern(tree[k], code);
  }
}
