/** The taxonomy definition and the codes a subtree stands for.

    A definition node carries its code token (which may describe a range),
    its display name and its ordered children. `get_children_codes_recursively`
    lists a subtree's concrete codes: the node's own expansion, then each
    child's already collected list, the whole reversed. */
module Taxonomy {
  import opened RangeExpand

  datatype Node = Node(code: string, name: string, children: seq<Node>)

  function Reverse<T>(s: seq<T>): (r: seq<T>)
    ensures |r| == |s|
    ensures forall i :: 0 <= i < |s| ==> r[i] == s[|s| - 1 - i]
  {
    if s == [] then [] else Reverse(s[1..]) + [s[0]]
  }

  /** Reversing keeps every element with its multiplicity. */
  lemma {:induction false} ReverseMultiset<T>(s: seq<T>)
    ensures multiset(Reverse(s)) == multiset(s)
  {
    if s != [] {
      ReverseMultiset(s[1..]);
      assert s == [s[0]] + s[1..];
    }
  }

  /** `get_children_codes_recursively(node)`. */
  function Collect(n: Node): seq<string>
    decreases n, 1
  {
    Reverse(Expand(n.code) + CollectAll(n.children))
  }

  /** The children's collected lists, concatenated in child order
      (`result.extend(...)` for each child). */
  function CollectAll(ns: seq<Node>): seq<string>
    decreases ns, 0
  {
    if ns == [] then [] else Collect(ns[0]) + CollectAll(ns[1..])
  }

  /** Independent reference: every code of the subtree in pre-order, each
      node's expansion before its descendants', nothing reversed. */
  function Flat(n: Node): seq<string>
    decreases n, 1
  {
    Expand(n.code) + FlatAll(n.children)
  }

  function FlatAll(ns: seq<Node>): seq<string>
    decreases ns, 0
  {
    if ns == [] then [] else Flat(ns[0]) + FlatAll(ns[1..])
  }

  /** The collected list holds exactly the codes of the subtree's expansions,
      each as often as it is produced: it is a permutation of the pre-order
      listing, so also its length is the sum of the expansion lengths. */
  lemma {:induction false} CollectPermutesFlat(n: Node)
    ensures multiset(Collect(n)) == multiset(Flat(n))
    ensures |Collect(n)| == |Flat(n)|
    decreases n, 1
  {
    CollectAllPermutesFlatAll(n.children);
    ReverseMultiset(Expand(n.code) + CollectAll(n.children));
  }

  lemma {:induction false} CollectAllPermutesFlatAll(ns: seq<Node>)
    ensures multiset(CollectAll(ns)) == multiset(FlatAll(ns))
    ensures |CollectAll(ns)| == |FlatAll(ns)|
    decreases ns, 0
  {
    if ns != [] {
      CollectPermutesFlat(ns[0]);
      CollectAllPermutesFlatAll(ns[1..]);
    }
  }

  /** A node without children lists its own expansion, last code first. */
  lemma CollectLeaf(n: Node)
    requires n.children == []
    ensures Collect(n) == Reverse(Expand(n.code))
  {
    assert Expand(n.code) + CollectAll(n.children) == Expand(n.code);
  }

  /** A code is collected from a subtree exactly when some node of the
      subtree expands to it. */
  lemma CollectContains(n: Node, c: string)
    ensures c in Collect(n) <==> c in Flat(n)
  {
    CollectPermutesFlat(n);
    assert c in Collect(n) <==> c in multiset(Collect(n));
    assert c in Flat(n) <==> c in multiset(Flat(n));
  }
}
