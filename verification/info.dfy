/** The classification information table and its lookup.

    `load_clc_info` walks the first three levels of the definition and
    records, for every node, its code, its name, and the codes and names on
    the way down to it. It writes each third-level node before its parent,
    each second-level node after its children and before its parent's later
    siblings, and each first-level node last, so that when two nodes share a
    code the one written later wins. `get_clc_info_by_code` looks a code up
    and answers `{}` (here `None`) for an unknown one. */
module ClcInfo {
  import opened Options
  import opened OrderedMaps
  import opened Taxonomy

  datatype Info = Info(code: string, name: string, path: seq<string>, namePath: seq<string>)

  function InfoAt1(f: Node): Info
  {
    Info(f.code, f.name, [f.code], [f.name])
  }

  function InfoAt2(f: Node, s: Node): Info
  {
    Info(s.code, s.name, [f.code, s.code], [f.name, s.name])
  }

  function InfoAt3(f: Node, s: Node, t: Node): Info
  {
    Info(t.code, t.name, [f.code, s.code, t.code], [f.name, s.name, t.name])
  }

  /** The entries for the children `ts` of second-level node `s` under `f`. */
  function ThirdEntries(f: Node, s: Node, ts: seq<Node>): (es: seq<(string, Info)>)
    ensures |es| == |ts|
    ensures forall i :: 0 <= i < |ts| ==> es[i] == (ts[i].code, InfoAt3(f, s, ts[i]))
  {
    if ts == [] then [] else [(ts[0].code, InfoAt3(f, s, ts[0]))] + ThirdEntries(f, s, ts[1..])
  }

  /** The entries for second-level nodes `ss` under `f`: each one's children,
      then itself. */
  function SecondEntries(f: Node, ss: seq<Node>): seq<(string, Info)>
  {
    if ss == [] then []
    else ThirdEntries(f, ss[0], ss[0].children) + [(ss[0].code, InfoAt2(f, ss[0]))] + SecondEntries(f, ss[1..])
  }

  /** The assignments of `load_clc_info`, in the order it makes them. */
  function InfoEntries(fs: seq<Node>): seq<(string, Info)>
  {
    if fs == [] then []
    else SecondEntries(fs[0], fs[0].children) + [(fs[0].code, InfoAt1(fs[0]))] + InfoEntries(fs[1..])
  }

  /** `load_clc_info(tree)`. */
  function LoadInfo(tree: seq<Node>): (m: OMap<Info>)
    ensures DistinctKeys(m)
  {
    PutAll([], InfoEntries(tree))
  }

  /** `get_clc_info_by_code(code)`: `None` stands for the source's `{}`. */
  function GetClcInfoByCode(info: OMap<Info>, code: string): (r: Option<Info>)
    ensures r.None? <==> !HasKey(info, code)
  {
    Get(info, code)
  }

  // ---------------------------------------------------------------------------
  // What the table holds
  // ---------------------------------------------------------------------------

  /** `v` describes a node of the first three levels of `tree`: its code and
      name, and the codes and names from the root down to it. */
  predicate Described(tree: seq<Node>, v: Info)
  {
    || (exists f :: f in tree && v == InfoAt1(f))
    || (exists f, s :: f in tree && s in f.children && v == InfoAt2(f, s))
    || (exists f, s, t :: f in tree && s in f.children && t in s.children && v == InfoAt3(f, s, t))
  }

  /** Every assignment in `es` is keyed by the code it describes. */
  predicate AllDescribed(tree: seq<Node>, es: seq<(string, Info)>)
  {
    forall i :: 0 <= i < |es| ==> es[i].0 == es[i].1.code && Described(tree, es[i].1)
  }

  lemma AllDescribedAppend(tree: seq<Node>, a: seq<(string, Info)>, b: seq<(string, Info)>)
    requires AllDescribed(tree, a) && AllDescribed(tree, b)
    ensures AllDescribed(tree, a + b)
  {
    forall i | 0 <= i < |a + b|
      ensures (a + b)[i].0 == (a + b)[i].1.code && Described(tree, (a + b)[i].1)
    {
      if i >= |a| {
        assert (a + b)[i] == b[i - |a|];
      }
    }
  }

  lemma ThirdDescribed(tree: seq<Node>, f: Node, s: Node)
    requires f in tree && s in f.children
    ensures AllDescribed(tree, ThirdEntries(f, s, s.children))
  {
    var es := ThirdEntries(f, s, s.children);
    forall i | 0 <= i < |es|
      ensures es[i].0 == es[i].1.code && Described(tree, es[i].1)
    {
      assert s.children[i] in s.children;
    }
  }

  lemma {:induction false} SecondDescribed(tree: seq<Node>, f: Node, ss: seq<Node>)
    requires f in tree && forall c :: c in ss ==> c in f.children
    ensures AllDescribed(tree, SecondEntries(f, ss))
  {
    if ss != [] {
      var s := ss[0];
      assert s in ss;
      ThirdDescribed(tree, f, s);
      SecondDescribed(tree, f, ss[1..]);
      var own := [(s.code, InfoAt2(f, s))];
      assert Described(tree, own[0].1);
      AllDescribedAppend(tree, ThirdEntries(f, s, s.children), own);
      AllDescribedAppend(tree, ThirdEntries(f, s, s.children) + own, SecondEntries(f, ss[1..]));
    }
  }

  lemma {:induction false} EntriesDescribed(tree: seq<Node>, fs: seq<Node>)
    requires forall f :: f in fs ==> f in tree
    ensures AllDescribed(tree, InfoEntries(fs))
  {
    if fs != [] {
      var f := fs[0];
      assert f in fs;
      SecondDescribed(tree, f, f.children);
      EntriesDescribed(tree, fs[1..]);
      var own := [(f.code, InfoAt1(f))];
      assert Described(tree, own[0].1);
      AllDescribedAppend(tree, SecondEntries(f, f.children), own);
      AllDescribedAppend(tree, SecondEntries(f, f.children) + own, InfoEntries(fs[1..]));
    }
  }

  /** Whatever the table holds under `code` describes the node with that
      code. */
  lemma LookupDescribes(tree: seq<Node>, code: string)
    requires GetClcInfoByCode(LoadInfo(tree), code).Some?
    ensures var v := GetClcInfoByCode(LoadInfo(tree), code).value;
      v.code == code && Described(tree, v)
  {
    var es := InfoEntries(tree);
    EntriesDescribed(tree, tree);
    PutAllFresh(es, code);
    var v := LastValue(es, code).value;
    var i :| 0 <= i < |es| && es[i] == (code, v);
  }

  /** A description is a path of one to three codes ending in the node's
      code, with as many names, ending in the node's name. */
  lemma DescribedShape(tree: seq<Node>, v: Info)
    requires Described(tree, v)
    ensures 1 <= |v.path| <= 3 && |v.namePath| == |v.path|
    ensures v.path[|v.path| - 1] == v.code && v.namePath[|v.namePath| - 1] == v.name
    ensures |v.path| == 1 ==> exists f :: f in tree && f.code == v.code
  {
  }

  /** The assignments for two runs of first-level nodes follow each other. */
  lemma {:induction false} InfoEntriesAppend(a: seq<Node>, b: seq<Node>)
    ensures InfoEntries(a + b) == InfoEntries(a) + InfoEntries(b)
  {
    if a != [] {
      assert (a + b)[0] == a[0] && (a + b)[1..] == a[1..] + b;
      InfoEntriesAppend(a[1..], b);
      var head := SecondEntries(a[0], a[0].children) + [(a[0].code, InfoAt1(a[0]))];
      assert InfoEntries(a + b) == head + InfoEntries(a[1..] + b);
      assert InfoEntries(a) == head + InfoEntries(a[1..]);
      assert head + (InfoEntries(a[1..]) + InfoEntries(b)) == (head + InfoEntries(a[1..])) + InfoEntries(b);
    } else {
      assert a + b == b;
    }
  }

  /** The last first-level node is written after everything else, so its
      own entry wins over any earlier node, and over any node below it,
      that shares its code. */
  lemma LastFirstLevelWins(a: seq<Node>, f: Node)
    ensures GetClcInfoByCode(LoadInfo(a + [f]), f.code) == Some(InfoAt1(f))
  {
    var es := InfoEntries(a + [f]);
    InfoEntriesAppend(a, [f]);
    assert InfoEntries([f]) == SecondEntries(f, f.children) + [(f.code, InfoAt1(f))];
    assert es[|es| - 1] == (f.code, InfoAt1(f));
    PutAllFresh(es, f.code);
  }

  /** Later first-level subtrees overwrite earlier ones: for a code of the
      first three levels of `b`, the table built from `a + b` holds what the
      table built from `b` alone holds. */
  lemma LaterSubtreesWin(a: seq<Node>, b: seq<Node>, k: string)
    requires InTopLevels(b, k)
    ensures GetClcInfoByCode(LoadInfo(a + b), k) == GetClcInfoByCode(LoadInfo(b), k)
  {
    InfoEntriesAppend(a, b);
    LookupComplete(b, k);
    PutAllFresh(InfoEntries(b), k);
    PutAllFresh(InfoEntries(a + b), k);
    LastValueRight(InfoEntries(a), InfoEntries(b), k);
  }

  /** A first-level node's own entry is written after everything in its
      subtree and every earlier node, so it is what the table holds for its
      code when no later first-level subtree has that code. */
  lemma FirstLevelWins(a: seq<Node>, f: Node, b: seq<Node>)
    requires !InTopLevels(b, f.code)
    ensures GetClcInfoByCode(LoadInfo(a + [f] + b), f.code) == Some(InfoAt1(f))
  {
    var k := f.code;
    var x := InfoEntries(a + [f]);
    InfoEntriesAppend(a + [f], b);
    LastFirstLevelWins(a, f);
    PutAllFresh(x, k);
    EntriesAvoid(b, k);
    LastValueSkip(x, InfoEntries(b), k);
    PutAllFresh(InfoEntries(a + [f] + b), k);
  }

  /** The assignments for two runs of second-level nodes follow each
      other. */
  lemma {:induction false} SecondEntriesAppend(f: Node, x: seq<Node>, y: seq<Node>)
    ensures SecondEntries(f, x + y) == SecondEntries(f, x) + SecondEntries(f, y)
  {
    if x != [] {
      assert (x + y)[0] == x[0] && (x + y)[1..] == x[1..] + y;
      SecondEntriesAppend(f, x[1..], y);
      var head := ThirdEntries(f, x[0], x[0].children) + [(x[0].code, InfoAt2(f, x[0]))];
      assert SecondEntries(f, x + y) == head + SecondEntries(f, x[1..] + y);
      assert head + (SecondEntries(f, x[1..]) + SecondEntries(f, y)) == (head + SecondEntries(f, x[1..])) + SecondEntries(f, y);
    } else {
      assert x + y == y;
    }
  }

  /** No assignment for second-level nodes `ss` is to `k` when neither they
      nor their children have code `k`. */
  lemma {:induction false} SecondEntriesAvoid(f: Node, ss: seq<Node>, k: string)
    requires forall x :: x in ss ==> x.code != k && forall y :: y in x.children ==> y.code != k
    ensures forall i :: 0 <= i < |SecondEntries(f, ss)| ==> SecondEntries(f, ss)[i].0 != k
  {
    if ss != [] {
      var x := ss[0];
      assert x in ss;
      var t := ThirdEntries(f, x, x.children);
      forall i | 0 <= i < |t|
        ensures t[i].0 != k
      {
        assert x.children[i] in x.children;
      }
      assert forall z :: z in ss[1..] ==> z in ss;
      SecondEntriesAvoid(f, ss[1..], k);
      assert SecondEntries(f, ss) == t + [(x.code, InfoAt2(f, x))] + SecondEntries(f, ss[1..]);
    }
  }

  /** No assignment for first-level nodes `fs` is to a code outside their
      first three levels. */
  lemma EntriesAvoid(fs: seq<Node>, k: string)
    requires !InTopLevels(fs, k)
    ensures forall i :: 0 <= i < |InfoEntries(fs)| ==> InfoEntries(fs)[i].0 != k
  {
    var es := InfoEntries(fs);
    EntriesDescribed(fs, fs);
    forall i | 0 <= i < |es|
      ensures es[i].0 != k
    {
      DescribedIn(fs, es[i].1);
    }
  }

  /** The node a description describes is in the first three levels. */
  lemma DescribedIn(tree: seq<Node>, v: Info)
    requires Described(tree, v)
    ensures InTopLevels(tree, v.code)
  {
  }

  /** A second-level node's own entry is written after its children's and
      before its later siblings', its parent's and every later first-level
      node's, so it wins over any node written before it that shares its
      code, as long as none of those written after it does. */
  lemma SecondLevelWins(a: seq<Node>, f: Node, b: seq<Node>, c: seq<Node>, s: Node, d: seq<Node>)
    requires f.children == c + [s] + d
    requires f.code != s.code
    requires forall x :: x in d ==> x.code != s.code && forall y :: y in x.children ==> y.code != s.code
    requires !InTopLevels(b, s.code)
    ensures GetClcInfoByCode(LoadInfo(a + [f] + b), s.code) == Some(InfoAt2(f, s))
  {
    var k := s.code;
    InfoEntriesAppend(a, [f] + b);
    assert a + [f] + b == a + ([f] + b);
    SecondOwnLast(f, b, c, s, d);
    LastValueRight(InfoEntries(a), InfoEntries([f] + b), k);
    PutAllFresh(InfoEntries(a + [f] + b), k);
  }

  /** `SecondLevelWins` within the assignments of `f` and the first-level
      nodes after it. */
  lemma SecondOwnLast(f: Node, b: seq<Node>, c: seq<Node>, s: Node, d: seq<Node>)
    requires f.children == c + [s] + d
    requires f.code != s.code
    requires forall x :: x in d ==> x.code != s.code && forall y :: y in x.children ==> y.code != s.code
    requires !InTopLevels(b, s.code)
    ensures LastValue(InfoEntries([f] + b), s.code) == Some(InfoAt2(f, s))
  {
    var k := s.code;
    assert ([f] + b)[0] == f && ([f] + b)[1..] == b;
    var ss, one, rest := SecondEntries(f, f.children), [(f.code, InfoAt1(f))], InfoEntries(b);
    assert InfoEntries([f] + b) == ss + one + rest;
    SecondOwnInChildren(f, c, s, d);
    LastValueSkip(ss, one, k);
    EntriesAvoid(b, k);
    LastValueSkip(ss + one, rest, k);
  }

  /** `SecondLevelWins` within the assignments for the children of `f`. */
  lemma SecondOwnInChildren(f: Node, c: seq<Node>, s: Node, d: seq<Node>)
    requires f.children == c + [s] + d
    requires forall x :: x in d ==> x.code != s.code && forall y :: y in x.children ==> y.code != s.code
    ensures LastValue(SecondEntries(f, f.children), s.code) == Some(InfoAt2(f, s))
  {
    var k := s.code;
    var e := (k, InfoAt2(f, s));
    SecondEntriesSplit(f, c, s, d);
    var sc, t, sd := SecondEntries(f, c), ThirdEntries(f, s, s.children), SecondEntries(f, d);
    assert LastValue(t + [e], k) == Some(e.1);
    LastValueRight(sc, t + [e], k);
    SecondEntriesAvoid(f, d, k);
    LastValueSkip(sc + (t + [e]), sd, k);
  }

  /** The assignments for `c + [s] + d` around the ones of `s`. */
  lemma SecondEntriesSplit(f: Node, c: seq<Node>, s: Node, d: seq<Node>)
    ensures SecondEntries(f, c + [s] + d)
         == SecondEntries(f, c) + (ThirdEntries(f, s, s.children) + [(s.code, InfoAt2(f, s))]) + SecondEntries(f, d)
  {
    SecondEntriesAppend(f, c + [s], d);
    SecondEntriesAppend(f, c, [s]);
    assert [s][1..] == [];
    assert SecondEntries(f, [s]) == ThirdEntries(f, s, s.children) + [(s.code, InfoAt2(f, s))];
  }

  /** A code is in the first three levels of the definition. */
  predicate InTopLevels(tree: seq<Node>, code: string)
  {
    || (exists f :: f in tree && f.code == code)
    || (exists f, s :: f in tree && s in f.children && s.code == code)
    || (exists f, s, t :: f in tree && s in f.children && t in s.children && t.code == code)
  }

  /** Exactly the codes of the first three levels are in the table. */
  lemma LookupFinds(tree: seq<Node>, code: string)
    ensures GetClcInfoByCode(LoadInfo(tree), code).Some? <==> InTopLevels(tree, code)
  {
    if GetClcInfoByCode(LoadInfo(tree), code).Some? {
      LookupSound(tree, code);
    }
    if InTopLevels(tree, code) {
      LookupComplete(tree, code);
    }
  }

  lemma LookupSound(tree: seq<Node>, code: string)
    requires GetClcInfoByCode(LoadInfo(tree), code).Some?
    ensures InTopLevels(tree, code)
  {
    LookupDescribes(tree, code);
  }

  lemma LookupComplete(tree: seq<Node>, code: string)
    requires InTopLevels(tree, code)
    ensures GetClcInfoByCode(LoadInfo(tree), code).Some?
  {
    PutAllFresh(InfoEntries(tree), code);
    if exists f :: f in tree && f.code == code {
      var f :| f in tree && f.code == code;
      FirstAssigned(tree, f);
    } else if exists f, s :: f in tree && s in f.children && s.code == code {
      var f, s :| f in tree && s in f.children && s.code == code;
      SecondAssigned(tree, f, s);
    } else {
      var f, s, t :| f in tree && s in f.children && t in s.children && t.code == code;
      ThirdAssigned(tree, f, s, t);
    }
  }

  /** Some assignment in `es` is to `k`. */
  predicate Assigned(es: seq<(string, Info)>, k: string)
  {
    exists i :: 0 <= i < |es| && es[i].0 == k
  }

  lemma AssignedLeft(a: seq<(string, Info)>, b: seq<(string, Info)>, k: string)
    requires Assigned(a, k)
    ensures Assigned(a + b, k)
  {
    var i :| 0 <= i < |a| && a[i].0 == k;
    assert (a + b)[i] == a[i];
  }

  lemma AssignedRight(a: seq<(string, Info)>, b: seq<(string, Info)>, k: string)
    requires Assigned(b, k)
    ensures Assigned(a + b, k)
  {
    var i :| 0 <= i < |b| && b[i].0 == k;
    assert (a + b)[|a| + i] == b[i];
  }

  /** Every first-level node's code is assigned. */
  lemma {:induction false} FirstAssigned(fs: seq<Node>, f: Node)
    requires f in fs
    ensures Assigned(InfoEntries(fs), f.code)
  {
    var g := fs[0];
    var a := SecondEntries(g, g.children) + [(g.code, InfoAt1(g))];
    if g == f {
      assert a[|a| - 1].0 == f.code;
      AssignedLeft(a, InfoEntries(fs[1..]), f.code);
    } else {
      assert f in fs[1..];
      FirstAssigned(fs[1..], f);
      AssignedRight(a, InfoEntries(fs[1..]), f.code);
    }
  }

  /** Every second-level node's code is assigned. */
  lemma {:induction false} SecondAssigned(fs: seq<Node>, f: Node, s: Node)
    requires f in fs && s in f.children
    ensures Assigned(InfoEntries(fs), s.code)
  {
    var g := fs[0];
    var a := SecondEntries(g, g.children) + [(g.code, InfoAt1(g))];
    if g == f {
      SecondAssignedBelow(f, f.children, s);
      AssignedLeft(SecondEntries(g, g.children), [(g.code, InfoAt1(g))], s.code);
      AssignedLeft(a, InfoEntries(fs[1..]), s.code);
    } else {
      assert f in fs[1..];
      SecondAssigned(fs[1..], f, s);
      AssignedRight(a, InfoEntries(fs[1..]), s.code);
    }
  }

  lemma {:induction false} SecondAssignedBelow(f: Node, ss: seq<Node>, s: Node)
    requires s in ss
    ensures Assigned(SecondEntries(f, ss), s.code)
  {
    var c := ss[0];
    var a := ThirdEntries(f, c, c.children) + [(c.code, InfoAt2(f, c))];
    if c == s {
      assert a[|a| - 1].0 == s.code;
      AssignedLeft(a, SecondEntries(f, ss[1..]), s.code);
    } else {
      assert s in ss[1..];
      SecondAssignedBelow(f, ss[1..], s);
      AssignedRight(a, SecondEntries(f, ss[1..]), s.code);
    }
  }

  /** Every third-level node's code is assigned. */
  lemma {:induction false} ThirdAssigned(fs: seq<Node>, f: Node, s: Node, t: Node)
    requires f in fs && s in f.children && t in s.children
    ensures Assigned(InfoEntries(fs), t.code)
  {
    var g := fs[0];
    var a := SecondEntries(g, g.children) + [(g.code, InfoAt1(g))];
    if g == f {
      ThirdAssignedBelow(f, f.children, s, t);
      AssignedLeft(SecondEntries(g, g.children), [(g.code, InfoAt1(g))], t.code);
      AssignedLeft(a, InfoEntries(fs[1..]), t.code);
    } else {
      assert f in fs[1..];
      ThirdAssigned(fs[1..], f, s, t);
      AssignedRight(a, InfoEntries(fs[1..]), t.code);
    }
  }

  lemma {:induction false} ThirdAssignedBelow(f: Node, ss: seq<Node>, s: Node, t: Node)
    requires s in ss && t in s.children
    ensures Assigned(SecondEntries(f, ss), t.code)
  {
    var c := ss[0];
    var a := ThirdEntries(f, c, c.children) + [(c.code, InfoAt2(f, c))];
    if c == s {
      var k :| 0 <= k < |s.children| && s.children[k] == t;
      assert ThirdEntries(f, c, c.children)[k].0 == t.code;
      AssignedLeft(ThirdEntries(f, c, c.children), [(c.code, InfoAt2(f, c))], t.code);
      AssignedLeft(a, SecondEntries(f, ss[1..]), t.code);
    } else {
      assert s in ss[1..];
      ThirdAssignedBelow(f, ss[1..], s, t);
      AssignedRight(a, SecondEntries(f, ss[1..]), t.code);
    }
  }
}
