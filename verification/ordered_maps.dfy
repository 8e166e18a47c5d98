/** Python's insertion-ordered `dict` with string keys, as an association list. Assigning to a
    key that is already present keeps the key where it was and replaces its
    value; a new key goes to the end. Iteration order is the list order. */
module OrderedMaps {
  import opened Options
  import opened Strings

  type OMap<V> = seq<(string, V)>

  predicate HasKey<V>(m: OMap<V>, k: string)
  {
    exists i :: 0 <= i < |m| && m[i].0 == k
  }

  ghost predicate DistinctKeys<V>(m: OMap<V>)
  {
    forall i, j :: 0 <= i < j < |m| ==> m[i].0 != m[j].0
  }

  function KeySeq<V>(m: OMap<V>): (r: seq<string>)
    ensures |r| == |m|
    ensures forall i :: 0 <= i < |m| ==> r[i] == m[i].0
  {
    if m == [] then [] else [m[0].0] + KeySeq(m[1..])
  }

  /** Position of key `k` in `m`, or `|m|` when `k` is absent. */
  function IndexOf<V>(m: OMap<V>, k: string): (r: nat)
    ensures r <= |m|
    ensures r < |m| ==> m[r].0 == k
    ensures forall j :: 0 <= j < r ==> m[j].0 != k
  {
    if m == [] then 0
    else if m[0].0 == k then 0
    else 1 + IndexOf(m[1..], k)
  }

  /** The first position holding `k` is unique. */
  lemma IndexOfIs<V>(m: OMap<V>, k: string, j: nat)
    requires j <= |m|
    requires j < |m| ==> m[j].0 == k
    requires forall l :: 0 <= l < j ==> m[l].0 != k
    ensures IndexOf(m, k) == j
  {
  }

  /** `m.get(k)`: the value stored under `k`, or `None`. */
  function Get<V>(m: OMap<V>, k: string): (r: Option<V>)
    ensures r.None? <==> !HasKey(m, k)
    ensures r.Some? ==> exists i :: 0 <= i < |m| && m[i] == (k, r.value)
  {
    var i := IndexOf(m, k);
    if i < |m| then Some(m[i].1) else None
  }

  /** `m[k] = v`. */
  function Put<V>(m: OMap<V>, k: string, v: V): (r: OMap<V>)
    ensures Get(r, k) == Some(v)
    ensures forall k' :: k' != k ==> Get(r, k') == Get(m, k')
    ensures HasKey(m, k) ==> KeySeq(r) == KeySeq(m)
    ensures !HasKey(m, k) ==> KeySeq(r) == KeySeq(m) + [k]
    ensures DistinctKeys(m) ==> DistinctKeys(r)
  {
    var i := IndexOf(m, k);
    var r := if i < |m| then m[i := (k, v)] else m + [(k, v)];
    PutFacts(m, k, v, i, r);
    r
  }

  lemma PutFacts<V>(m: OMap<V>, k: string, v: V, i: nat, r: OMap<V>)
    requires i == IndexOf(m, k)
    requires r == if i < |m| then m[i := (k, v)] else m + [(k, v)]
    ensures Get(r, k) == Some(v)
    ensures forall k' :: k' != k ==> Get(r, k') == Get(m, k')
    ensures HasKey(m, k) ==> KeySeq(r) == KeySeq(m)
    ensures !HasKey(m, k) ==> KeySeq(r) == KeySeq(m) + [k]
    ensures DistinctKeys(m) ==> DistinctKeys(r)
  {
    IndexOfIs(r, k, i);
    forall k' | k' != k
      ensures Get(r, k') == Get(m, k')
    {
      PutOther(m, k, v, i, r, k');
    }
    PutKeys(m, k, v, i, r);
    if DistinctKeys(m) {
      PutDistinct(m, k, v, i, r);
    }
  }

  lemma PutOther<V>(m: OMap<V>, k: string, v: V, i: nat, r: OMap<V>, k': string)
    requires i == IndexOf(m, k)
    requires r == if i < |m| then m[i := (k, v)] else m + [(k, v)]
    requires k' != k
    ensures Get(r, k') == Get(m, k')
  {
    var j := IndexOf(m, k');
    if j < |m| {
      IndexOfIs(r, k', j);
    } else {
      IndexOfIs(r, k', |r|);
    }
  }

  lemma PutKeys<V>(m: OMap<V>, k: string, v: V, i: nat, r: OMap<V>)
    requires i == IndexOf(m, k)
    requires r == if i < |m| then m[i := (k, v)] else m + [(k, v)]
    ensures HasKey(m, k) ==> KeySeq(r) == KeySeq(m)
    ensures !HasKey(m, k) ==> KeySeq(r) == KeySeq(m) + [k]
  {
    var kr, km := KeySeq(r), KeySeq(m);
    if i < |m| {
      assert forall j :: 0 <= j < |kr| ==> kr[j] == km[j];
    } else {
      assert forall j :: 0 <= j < |kr| ==> kr[j] == (km + [k])[j];
    }
  }

  lemma PutDistinct<V>(m: OMap<V>, k: string, v: V, i: nat, r: OMap<V>)
    requires i == IndexOf(m, k)
    requires r == if i < |m| then m[i := (k, v)] else m + [(k, v)]
    requires DistinctKeys(m)
    ensures DistinctKeys(r)
  {
    forall a, b | 0 <= a < b < |r|
      ensures r[a].0 != r[b].0
    {
      if i < |m| {
        assert r[a].0 == m[a].0 && r[b].0 == m[b].0;
      } else if b == |m| {
        assert m[a].0 != k;
      }
    }
  }

  /** The value of the last entry of `es` whose key is `k`: what a sequence of
      assignments `m[k] = v` leaves under `k`. */
  function LastValue<V>(es: seq<(string, V)>, k: string): (r: Option<V>)
    ensures r.None? <==> forall i :: 0 <= i < |es| ==> es[i].0 != k
    ensures r.Some? ==> exists i :: 0 <= i < |es| && es[i] == (k, r.value)
                          && forall j :: i < j < |es| ==> es[j].0 != k
  {
    if es == [] then None
    else if es[|es| - 1].0 == k then Some(es[|es| - 1].1)
    else LastValue(es[..|es| - 1], k)
  }

  /** `for k, v in es: m[k] = v`. */
  function PutAll<V>(m: OMap<V>, es: seq<(string, V)>): (r: OMap<V>)
    ensures forall k :: Get(r, k) == (if LastValue(es, k).Some? then LastValue(es, k) else Get(m, k))
    ensures DistinctKeys(m) ==> DistinctKeys(r)
  {
    if es == [] then m
    else
      var r := Put(PutAll(m, es[..|es| - 1]), es[|es| - 1].0, es[|es| - 1].1);
      r
  }

  /** The keys of `ks` that are not in `seen`, each once, in the order of
      their first occurrence: the keys that a run of assignments with keys
      `ks` adds, at the end, to a dict whose keys are `seen`. */
  function Fresh(ks: seq<string>, seen: seq<string>): seq<string>
    decreases |ks|
  {
    if ks == [] then []
    else if ks[0] in seen then Fresh(ks[1..], seen)
    else [ks[0]] + Fresh(ks[1..], seen + [ks[0]])
  }

  /** A key is fresh exactly when it occurs in `ks` and not in `seen`. */
  lemma {:induction false} FreshElems(ks: seq<string>, seen: seq<string>, k: string)
    ensures k in Fresh(ks, seen) <==> k in ks && k !in seen
    decreases |ks|
  {
    if ks != [] {
      assert ks == [ks[0]] + ks[1..];
      if ks[0] in seen {
        FreshElems(ks[1..], seen, k);
      } else {
        FreshElems(ks[1..], seen + [ks[0]], k);
      }
    }
  }

  /** One more key is fresh when it occurs neither in `seen` nor before. */
  lemma {:induction false} FreshSnoc(ks: seq<string>, seen: seq<string>, k: string)
    ensures Fresh(ks + [k], seen) == Fresh(ks, seen) + (if k in seen || k in ks then [] else [k])
    decreases |ks|
  {
    if ks == [] {
      assert ks + [k] == [k];
    } else {
      assert (ks + [k])[0] == ks[0] && (ks + [k])[1..] == ks[1..] + [k];
      assert ks == [ks[0]] + ks[1..];
      if ks[0] in seen {
        FreshSnoc(ks[1..], seen, k);
      } else {
        FreshSnoc(ks[1..], seen + [ks[0]], k);
        var t := if k in seen + [ks[0]] || k in ks[1..] then [] else [k];
        AppendAssoc([ks[0]], Fresh(ks[1..], seen + [ks[0]]), t);
      }
    }
  }

  /** `k` is a key of `m` exactly when it is in `m`'s key sequence. */
  lemma HasKeyInKeys<V>(m: OMap<V>, k: string)
    ensures HasKey(m, k) <==> k in KeySeq(m)
  {
    if k in KeySeq(m) {
      var i :| 0 <= i < |KeySeq(m)| && KeySeq(m)[i] == k;
    }
  }

  /** The keys of assignments made one after another. */
  lemma KeySeqSnoc<V>(es: seq<(string, V)>)
    requires es != []
    ensures KeySeq(es) == KeySeq(es[..|es| - 1]) + [es[|es| - 1].0]
  {
    var p, last := es[..|es| - 1], es[|es| - 1];
    assert es == p + [last];
    KeySeqAppend(p, [last]);
    assert KeySeq([last]) == [last.0];
  }

  /** The keys of two runs of assignments follow each other. */
  lemma {:induction false} KeySeqAppend<V>(a: seq<(string, V)>, b: seq<(string, V)>)
    ensures KeySeq(a + b) == KeySeq(a) + KeySeq(b)
  {
    if a == [] {
      assert a + b == b;
    } else {
      assert (a + b)[0] == a[0] && (a + b)[1..] == a[1..] + b;
      KeySeqAppend(a[1..], b);
      AppendAssoc([a[0].0], KeySeq(a[1..]), KeySeq(b));
    }
  }

  /** Dict insertion order: after a run of assignments the keys already
      present keep their places, and the new keys follow in the order of
      their first assignment. */
  lemma {:induction false} PutAllKeys<V>(m: OMap<V>, es: seq<(string, V)>)
    ensures KeySeq(PutAll(m, es)) == KeySeq(m) + Fresh(KeySeq(es), KeySeq(m))
  {
    if es == [] {
      assert KeySeq(es) == [];
    } else {
      var es' := es[..|es| - 1];
      var k := es[|es| - 1].0;
      var a := PutAll(m, es');
      assert PutAll(m, es) == Put(a, k, es[|es| - 1].1);
      PutAllKeys(m, es');
      KeySeqSnoc(es);
      FreshSnoc(KeySeq(es'), KeySeq(m), k);
      HasKeyInKeys(a, k);
      FreshElems(KeySeq(es'), KeySeq(m), k);
      var fr := Fresh(KeySeq(es'), KeySeq(m));
      if k in KeySeq(m) || k in KeySeq(es') {
        assert HasKey(a, k);
      } else {
        assert !HasKey(a, k);
        AppendAssoc(KeySeq(m), fr, [k]);
      }
    }
  }

  /** Starting from `{}`, the keys are those assigned, in the order of their
      first assignment, each once. */
  lemma PutAllFreshKeys<V>(es: seq<(string, V)>)
    ensures KeySeq(PutAll([], es)) == Fresh(KeySeq(es), [])
  {
    PutAllKeys([], es);
    assert KeySeq<V>([]) == [];
  }

  /** The first fresh key is the first key not already seen. */
  lemma FreshHead(ks: seq<string>)
    ensures Fresh(ks, []) == [] <==> ks == []
    ensures ks != [] ==> Fresh(ks, [])[0] == ks[0]
  {
  }

  /** Assignments to other keys, made after those in `x`, leave the last
      value of `k` as it was. */
  lemma {:induction false} LastValueSkip<V>(x: seq<(string, V)>, y: seq<(string, V)>, k: string)
    requires forall i :: 0 <= i < |y| ==> y[i].0 != k
    ensures LastValue(x + y, k) == LastValue(x, k)
    decreases |y|
  {
    if y == [] {
      assert x + y == x;
    } else {
      assert (x + y)[..|x + y| - 1] == x + y[..|y| - 1];
      LastValueSkip(x, y[..|y| - 1], k);
    }
  }

  /** Once `y` assigns to `k`, what came before `y` no longer matters. */
  lemma {:induction false} LastValueRight<V>(x: seq<(string, V)>, y: seq<(string, V)>, k: string)
    requires LastValue(y, k).Some?
    ensures LastValue(x + y, k) == LastValue(y, k)
    decreases |y|
  {
    assert (x + y)[|x + y| - 1] == y[|y| - 1];
    if y[|y| - 1].0 != k {
      assert (x + y)[..|x + y| - 1] == x + y[..|y| - 1];
      LastValueRight(x, y[..|y| - 1], k);
    }
  }

  /** A dict filled from `{}` by `es` holds `k` exactly when some assignment
      was to `k`, and then holds the value of the last one. */
  lemma PutAllFresh<V>(es: seq<(string, V)>, k: string)
    ensures HasKey(PutAll([], es), k) <==> exists i :: 0 <= i < |es| && es[i].0 == k
    ensures Get(PutAll([], es), k) == LastValue(es, k)
  {
    assert Get<V>([], k) == None;
  }

  /** In a map with distinct keys the entry at `i` is what its key looks up. */
  lemma GetAt<V>(m: OMap<V>, i: nat)
    requires DistinctKeys(m) && i < |m|
    ensures Get(m, m[i].0) == Some(m[i].1)
  {
    IndexOfIs(m, m[i].0, i);
  }
}
