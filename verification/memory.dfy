/** Memory accounting (`TrieMapNode_MemUsage`) and the values released by
    `TrieMapNode_Free`, triemap.c. */
module TrieMemory {
  import opened Wrappers
  import opened TrieNode
  import opened TrieLookup
  import opened TrieContents

  /** Every node of the subtree, the subtree's root first (pre-order). */
  function Flatten<V>(n: Node<V>): (r: seq<Node<V>>)
    ensures |r| >= 1 && r[0] == n
    decreases n, 1
  {
    [n] + FlattenFrom(n, 0)
  }

  /** The nodes below children `i..` of `n`, child by child. */
  function FlattenFrom<V>(n: Node<V>, i: nat): seq<Node<V>>
    requires i <= |n.children|
    decreases n, 0, |n.children| - i
  {
    if i == |n.children| then [] else Flatten(n.children[i]) + FlattenFrom(n, i + 1)
  }

  /** The allocation of one node: `__trieMapNode_Sizeof(numChildren, len)`. */
  function NodeSize<V>(layout: Layout, n: Node<V>): nat {
    Sizeof(layout, |n.children|, |n.seg|)
  }

  /** The sum of the allocations of a list of nodes. */
  function TotalSize<V>(layout: Layout, ns: seq<Node<V>>): nat {
    if ns == [] then 0 else NodeSize(layout, ns[0]) + TotalSize(layout, ns[1..])
  }

  /** The number of child pointers held by a list of nodes. */
  function ChildPointers<V>(ns: seq<Node<V>>): nat {
    if ns == [] then 0 else |ns[0].children| + ChildPointers(ns[1..])
  }

  /** The number of segment bytes held by a list of nodes. */
  function SegmentBytes<V>(ns: seq<Node<V>>): nat {
    if ns == [] then 0 else |ns[0].seg| + SegmentBytes(ns[1..])
  }

  /** Sizes add up over concatenation. */
  lemma {:induction false} TotalSizeAppend<V>(layout: Layout, a: seq<Node<V>>, b: seq<Node<V>>)
    ensures TotalSize(layout, a + b) == TotalSize(layout, a) + TotalSize(layout, b)
    ensures ChildPointers(a + b) == ChildPointers(a) + ChildPointers(b)
    ensures SegmentBytes(a + b) == SegmentBytes(a) + SegmentBytes(b)
    decreases |a|
  {
    if a == [] {
      assert a + b == b;
    } else {
      assert (a + b)[1..] == a[1..] + b;
      TotalSizeAppend(layout, a[1..], b);
    }
  }

  /** `TrieMapNode_MemUsage`: the node's own allocation plus, child by child,
      the usage of every subtree; it is the sum of the per-node sizes over all
      nodes of the subtree. */
  method MemUsage<V>(layout: Layout, n: Node<V>) returns (ret: nat)
    ensures ret == TotalSize(layout, Flatten(n))
    decreases n
  {
    ret := Sizeof(layout, |n.children|, |n.seg|);
    var i := 0;
    assert Flatten(n)[1..] == FlattenFrom(n, 0);
    while i < |n.children|
      invariant i <= |n.children|
      invariant ret + TotalSize(layout, FlattenFrom(n, i)) == TotalSize(layout, Flatten(n))
    {
      var child := MemUsage(layout, n.children[i]);
      TotalSizeAppend(layout, Flatten(n.children[i]), FlattenFrom(n, i + 1));
      ret := ret + child;
      i := i + 1;
    }
  }

  /** Every node but the root is the target of exactly one child pointer. */
  lemma {:induction false} PointersAreNodesMinusOne<V>(n: Node<V>)
    ensures ChildPointers(Flatten(n)) + 1 == |Flatten(n)|
    decreases n, 1
  {
    PointersFrom(n, 0);
    TotalSizeAppend(Layout(0, 0), [n], FlattenFrom(n, 0));
  }

  /** The pointer count of children `i..` of `n` and of everything below them. */
  lemma {:induction false} PointersFrom<V>(n: Node<V>, i: nat)
    requires i <= |n.children|
    ensures ChildPointers(FlattenFrom(n, i)) + (|n.children| - i) == |FlattenFrom(n, i)|
    decreases n, 0, |n.children| - i
  {
    if i < |n.children| {
      PointersAreNodesMinusOne(n.children[i]);
      PointersFrom(n, i + 1);
      TotalSizeAppend(Layout(0, 0), Flatten(n.children[i]), FlattenFrom(n, i + 1));
    }
  }

  /** The size of a node list, term by term: headers, child pointers, segment
      bytes and one terminating byte per node. */
  lemma {:induction false} TotalSizeTerms<V>(layout: Layout, ns: seq<Node<V>>)
    ensures TotalSize(layout, ns) ==
      |ns| * layout.header + ChildPointers(ns) * layout.pointer + SegmentBytes(ns) + |ns|
    decreases |ns|
  {
    if ns != [] {
      TotalSizeTerms(layout, ns[1..]);
      assert |ns| * layout.header == layout.header + (|ns| - 1) * layout.header;
      assert ChildPointers(ns) * layout.pointer ==
        |ns[0].children| * layout.pointer + ChildPointers(ns[1..]) * layout.pointer;
    }
  }

  /** The memory usage of a subtree with `N` nodes: `N` headers, `N - 1` child
      pointers, all segment bytes and `N` terminating bytes. */
  lemma MemUsageClosedForm<V>(layout: Layout, n: Node<V>)
    ensures var ns := Flatten(n);
      TotalSize(layout, ns) ==
        |ns| * (layout.header + 1) + (|ns| - 1) * layout.pointer + SegmentBytes(ns)
  {
    var ns := Flatten(n);
    TotalSizeTerms(layout, ns);
    PointersAreNodesMinusOne(n);
  }

  /** The values `TrieMapNode_Free` hands to the free callback (or to `free`),
      in its order: the children's subtrees first, then the node's own value if
      it is not NULL. */
  function FreedValues<V>(n: Node<V>): seq<V>
    decreases n, 1
  {
    FreedFrom(n, 0) + (if n.value.Some? then [n.value.value] else [])
  }

  /** The values freed below children `i..` of `n`. */
  function FreedFrom<V>(n: Node<V>, i: nat): seq<V>
    requires i <= |n.children|
    decreases n, 0, |n.children| - i
  {
    if i == |n.children| then [] else FreedValues(n.children[i]) + FreedFrom(n, i + 1)
  }

  /** The values freed below children `i..` include those of each such child. */
  lemma {:induction false} FreedFromIncludes<V>(n: Node<V>, i: nat, j: nat, v: V)
    requires i <= j < |n.children|
    requires v in FreedValues(n.children[j])
    ensures v in FreedFrom(n, i)
    decreases |n.children| - i
  {
    if i < j {
      FreedFromIncludes(n, i + 1, j, v);
    }
  }

  /** A value freed below children `i..` is freed by one of them. */
  lemma {:induction false} FreedFromSource<V>(n: Node<V>, i: nat, v: V) returns (j: nat)
    requires i <= |n.children|
    requires v in FreedFrom(n, i)
    ensures i <= j < |n.children| && v in FreedValues(n.children[j])
    decreases |n.children| - i
  {
    if v in FreedValues(n.children[i]) {
      j := i;
    } else {
      j := FreedFromSource(n, i + 1, v);
    }
  }

  /** A key that finds something runs through the whole segment. */
  lemma LookupFoundExtendsSegment<V>(n: Node<V>, k: Key)
    requires Lookup(n, k).Some?
    ensures IsPrefix(n.seg, k)
  {
    LookupCases(n, k);
    if k == n.seg {
      assert n.seg[..|n.seg|] == n.seg;
    }
  }

  /** Every value that some key finds is freed. */
  lemma {:induction false} FoundValueIsFreed<V>(n: Node<V>, k: Key)
    requires Lookup(n, k).Some?
    ensures Lookup(n, k).value in FreedValues(n)
    decreases n
  {
    LookupCases(n, k);
    if k != n.seg {
      var j := ChildIndex(n.children, k[|n.seg|]).value;
      FoundValueIsFreed(n.children[j], k[|n.seg|..]);
      FreedFromIncludes(n, 0, j, Lookup(n, k).value);
    }
  }

  /** Every freed value is found by some key: under the invariant a non-NULL
      value sits only on a live entry, and the path to it is a key. */
  lemma {:induction false} FreedValueIsFound<V>(n: Node<V>, budget: nat, isRoot: bool, v: V) returns (k: Key)
    requires ValidNode(n, budget, isRoot)
    requires v in FreedValues(n)
    ensures Lookup(n, k) == Some(v)
    decreases n
  {
    if v in FreedFrom(n, 0) {
      var j := FreedFromSource(n, 0, v);
      var c := n.children[j];
      var k' := FreedValueIsFound(c, budget - |n.seg|, false, v);
      LookupFoundExtendsSegment(c, k');
      assert k'[0] == c.seg[0] by { assert k'[..|c.seg|][0] == c.seg[0]; }
      k := n.seg + k';
      PrefixFacts(n.seg, k', k');
      assert k[|n.seg|..] == k' && k[|n.seg|] == FirstByte(c);
      ChildIndexDistinct(n.children, j, k[|n.seg|]);
      LookupThroughChild(n, k, j);
    } else {
      k := n.seg;
      LookupCases(n, k);
    }
  }

  /** `TrieMapNode_Free` on a whole trie releases exactly the values the map
      holds: every stored value, and nothing that is not a stored value. */
  lemma FreeReleasesStoredValues<V>(t: Node<V>, v: V)
    requires ValidTrie(t)
    ensures v in FreedValues(t) <==> v in Contents(t).Values
  {
    if v in FreedValues(t) {
      var k := FreedValueIsFound(t, TM_MAX_STRING_LEN, true, v);
      LookupAgreesWithContents(t, TM_MAX_STRING_LEN, true, k);
    }
    if v in Contents(t).Values {
      var k :| k in Contents(t) && Contents(t)[k] == v;
      LookupAgreesWithContents(t, TM_MAX_STRING_LEN, true, k);
      FoundValueIsFreed(t, k);
    }
  }
}
