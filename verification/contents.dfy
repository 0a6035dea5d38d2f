/** The abstract view of a trie: the finite map from every stored key to its
    value, read off the paths that end at terminal, non-deleted nodes. Lookup and
    Find are proved to agree with it. */
module TrieContents {
  import opened Wrappers
  import opened TrieNode
  import opened TrieLookup

  /** Prepending `p` is injective. */
  lemma PrependInjective(p: Key, a: Key, b: Key)
    requires p + a == p + b
    ensures a == b
  {
    assert a == (p + a)[|p|..];
    assert b == (p + b)[|p|..];
  }

  /** The map `m` with `p` prepended to every key. */
  function Prefixed<V>(p: Key, m: map<Key, V>): (r: map<Key, V>)
    ensures forall k :: k in m ==> p + k in r && r[p + k] == m[k]
    ensures forall k :: k in r ==> IsPrefix(p, k) && k[|p|..] in m
  {
    assert forall a, b :: p + a == p + b ==> a == b by {
      forall a, b | p + a == p + b
        ensures a == b
      {
        PrependInjective(p, a, b);
      }
    }
    var r := map k | k in m.Keys :: p + k := m[k];
    assert forall k :: k in r ==> IsPrefix(p, k) && k[|p|..] in m by {
      forall k | k in r
        ensures IsPrefix(p, k) && k[|p|..] in m
      {
        var j :| j in m && k == p + j;
        assert k[..|p|] == p && k[|p|..] == j;
      }
    }
    r
  }

  /** Looking up `k` in a prefixed map strips the prefix. */
  lemma PrefixedGet<V>(p: Key, m: map<Key, V>, k: Key)
    ensures Get(Prefixed(p, m), k) == if IsPrefix(p, k) then Get(m, k[|p|..]) else None
  {
    if IsPrefix(p, k) {
      PrefixFacts(p, k, k);
      assert k == p + k[|p|..];
    }
  }

  /** The entries stored at or below `n`, keyed by the full path from `n`
      (including `n`'s own segment): `n`'s own value when it is a live entry,
      and the entries of every child with `n`'s segment prepended. */
  function Contents<V>(n: Node<V>): map<Key, V>
    decreases n, 1
  {
    var own := if n.terminal && !n.deleted && n.value.Some? then map[n.seg := n.value.value] else map[];
    own + ChildrenContents(n, 0)
  }

  /** The entries contributed by the children of `n` from index `i` on. */
  function ChildrenContents<V>(n: Node<V>, i: nat): map<Key, V>
    requires i <= |n.children|
    decreases n, 0, |n.children| - i
  {
    if i == |n.children| then map[]
    else Prefixed(n.seg, Contents(n.children[i])) + ChildrenContents(n, i + 1)
  }

  /** Every stored key below `n` runs through `n`'s segment. */
  lemma {:induction false} ContentsExtendSegment<V>(n: Node<V>)
    ensures forall k :: k in Contents(n) ==> IsPrefix(n.seg, k)
    decreases n, 1
  {
    ChildrenContentsExtendSegment(n, 0);
  }

  /** Every key contributed by the children runs through `n`'s segment. */
  lemma {:induction false} ChildrenContentsExtendSegment<V>(n: Node<V>, i: nat)
    requires i <= |n.children|
    ensures forall k :: k in ChildrenContents(n, i) ==> IsPrefix(n.seg, k)
    decreases n, 0, |n.children| - i
  {
    if i < |n.children| {
      ChildrenContentsExtendSegment(n, i + 1);
    }
  }

  /** A key that is empty or starts with another byte than the child's
      segment is not stored below that child. */
  lemma NotStoredBelow<V>(c: Node<V>, r: Key)
    requires |c.seg| > 0
    requires |r| == 0 || r[0] != c.seg[0]
    ensures Get(Contents(c), r) == None
  {
    ContentsExtendSegment(c);
  }

  /** Looking up a key in a union of maps: the right operand wins. */
  lemma GetUnion<V>(a: map<Key, V>, b: map<Key, V>, k: Key)
    ensures Get(a + b, k) == if k in b then Get(b, k) else Get(a, k)
  {
  }

  /** The children's entries under the radix invariant: a key is found among
      them exactly when it extends `n`'s segment and the child chosen by its next
      byte (if that child is at index `i` or later) holds the remainder. */
  lemma {:induction false} ChildrenContentsGet<V>(n: Node<V>, i: nat, k: Key)
    requires i <= |n.children|
    requires DistinctFirstBytes(n.children)
    requires forall j :: 0 <= j < |n.children| ==> |n.children[j].seg| > 0
    ensures Get(ChildrenContents(n, i), k) ==
      if |n.seg| < |k| && IsPrefix(n.seg, k) then
        match ChildIndex(n.children, k[|n.seg|])
        case None => None
        case Some(j) => if i <= j then Get(Contents(n.children[j]), k[|n.seg|..]) else None
      else None
    decreases |n.children| - i
  {
    if i < |n.children| {
      var c := n.children[i];
      ChildrenContentsGet(n, i + 1, k);
      GetUnion(Prefixed(n.seg, Contents(c)), ChildrenContents(n, i + 1), k);
      PrefixedGet(n.seg, Contents(c), k);
      if IsPrefix(n.seg, k) {
        var r := k[|n.seg|..];
        if |n.seg| < |k| && ChildIndex(n.children, k[|n.seg|]) == Some(i) {
          assert r[0] == k[|n.seg|];
        } else {
          if |r| > 0 {
            assert r[0] == k[|n.seg|];
            ChildIndexDistinct(n.children, i, k[|n.seg|]);
          }
          NotStoredBelow(c, r);
        }
      }
    }
  }

  /** The abstract map described like Lookup: the node's own entry for its
      segment, the chosen child's entries for longer keys through the segment,
      nothing otherwise. */
  lemma ContentsCases<V>(n: Node<V>, budget: nat, isRoot: bool, k: Key)
    requires ValidNode(n, budget, isRoot)
    ensures Get(Contents(n), k) ==
      if k == n.seg then (if n.deleted then None else n.value)
      else if |n.seg| < |k| && IsPrefix(n.seg, k) then
        match ChildIndex(n.children, k[|n.seg|])
        case None => None
        case Some(j) => Get(Contents(n.children[j]), k[|n.seg|..])
      else None
  {
    var own := if n.terminal && !n.deleted && n.value.Some? then map[n.seg := n.value.value] else map[];
    GetUnion(own, ChildrenContents(n, 0), k);
    ChildrenContentsGet(n, 0, k);
  }

  /** Lookup and the abstract map agree on a key that goes on into child `j`
      when they agree on the child. */
  lemma AgreeThroughChild<V>(n: Node<V>, budget: nat, isRoot: bool, k: Key, j: nat)
    requires ValidNode(n, budget, isRoot)
    requires RoutesTo(n, k, j)
    requires Lookup(n.children[j], k[|n.seg|..]) == Get(Contents(n.children[j]), k[|n.seg|..])
    ensures Lookup(n, k) == Get(Contents(n), k)
  {
    LookupCases(n, k);
    ContentsCases(n, budget, isRoot, k);
  }

  /** Lookup and the abstract map agree on a key that does not go on into a
      child. */
  lemma AgreeAtNode<V>(n: Node<V>, budget: nat, isRoot: bool, k: Key)
    requires ValidNode(n, budget, isRoot)
    requires !(|n.seg| < |k| && IsPrefix(n.seg, k) && ChildIndex(n.children, k[|n.seg|]).Some?)
    ensures Lookup(n, k) == Get(Contents(n), k)
  {
    LookupCases(n, k);
    ContentsCases(n, budget, isRoot, k);
  }

  /** The central agreement: on a valid subtree, lookup of any key answers
      exactly what the abstract map holds for it. */
  lemma {:induction false} LookupAgreesWithContents<V>(n: Node<V>, budget: nat, isRoot: bool, k: Key)
    requires ValidNode(n, budget, isRoot)
    ensures Lookup(n, k) == Get(Contents(n), k)
    decreases n
  {
    if |n.seg| < |k| && IsPrefix(n.seg, k) && ChildIndex(n.children, k[|n.seg|]).Some? {
      var j := ChildIndex(n.children, k[|n.seg|]).value;
      ChildValid(n, budget, isRoot, j);
      LookupAgreesWithContents(n.children[j], budget - |n.seg|, false, k[|n.seg|..]);
      AgreeThroughChild(n, budget, isRoot, k, j);
    } else {
      AgreeAtNode(n, budget, isRoot, k);
    }
  }

  /** The abstract map of a whole trie never holds the empty key. */
  lemma EmptyKeyNeverStored<V>(t: Node<V>)
    requires ValidTrie(t)
    ensures [] !in Contents(t)
  {
    LookupAgreesWithContents(t, TM_MAX_STRING_LEN, true, []);
    LookupCases(t, []);
  }

  /** `TrieMapNode_Find` agrees with the abstract map for every key: it returns
      the stored value, and NULL exactly when the key is not stored (including
      the empty key). */
  lemma FindAgreesWithContents<V>(t: Node<V>, k: Key)
    requires ValidTrie(t)
    ensures Find(t, k) == Get(Contents(t), k)
  {
    LookupAgreesWithContents(t, TM_MAX_STRING_LEN, true, k);
    EmptyKeyNeverStored(t);
  }

  /** Two valid subtrees that answer every lookup alike hold the same entries. */
  lemma SameLookupSameContents<V>(a: Node<V>, ba: nat, ra: bool, b: Node<V>, bb: nat, rb: bool)
    requires ValidNode(a, ba, ra) && ValidNode(b, bb, rb)
    requires forall k :: Lookup(a, k) == Lookup(b, k)
    ensures Contents(a) == Contents(b)
  {
    var ma, mb := Contents(a), Contents(b);
    forall k
      ensures Get(ma, k) == Get(mb, k)
    {
      LookupAgreesWithContents(a, ba, ra, k);
      LookupAgreesWithContents(b, bb, rb, k);
    }
    MapsAgreeingEverywhere(ma, mb);
  }

  /** Two maps that answer every key alike are equal. */
  lemma MapsAgreeingEverywhere<K, V>(ma: map<K, V>, mb: map<K, V>)
    requires forall k :: Get(ma, k) == Get(mb, k)
    ensures ma == mb
  {
    assert forall k :: k in ma <==> Get(ma, k).Some?;
    assert forall k :: k in mb <==> Get(mb, k).Some?;
    assert ma.Keys == mb.Keys;
    assert forall k :: k in ma ==> ma[k] == Get(ma, k).value;
  }
}
