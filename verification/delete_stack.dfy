/** The node stack of `TrieMapNode_Delete` (triemap.c): the descent pushes every
    node it visits onto a static array, which is then unwound to optimize the
    visited nodes deepest first. The array is declared with `TM_MAX_STRING_LEN`
    slots, but a key of that length can visit one node more: the root, whose
    segment is empty, consumes no key byte. */
module DeleteStack {
  import opened Wrappers
  import opened TrieNode
  import opened TrieLookup
  import opened TrieAdd

  /** `static TrieMapNode *stack[TM_MAX_STRING_LEN]`, as declared. */
  const STACK_SLOTS_AS_WRITTEN: nat := TM_MAX_STRING_LEN

  /** The capacity the descent needs: one slot per key byte, plus the root. */
  const STACK_SLOTS: nat := TM_MAX_STRING_LEN + 1

  /** The number of nodes the descent pushes for the non-empty remaining key
      `key` starting at `n`: this node, and then the nodes pushed below the
      child chosen by the next key byte, if the key goes on past the segment. */
  function DescentDepth<V>(n: Node<V>, key: Key): (d: nat)
    requires |key| > 0
    ensures d >= 1
    decreases n
  {
    var l := CommonPrefixLength(key, n.seg);
    if l < |key| && l == |n.seg| then
      match ChildIndex(n.children, key[l])
      case Some(i) => 1 + DescentDepth(n.children[i], key[l..])
      case None => 1
    else 1
  }

  /** The descent loop of `TrieMapNode_Delete` with a stack of `capacity`
      slots: every visited node is pushed; `overflow` reports the first push
      that would write at index `capacity`, past the end of the array. */
  method DescentPushes<V>(t: Node<V>, key: Key, capacity: nat) returns (stack: seq<Node<V>>, overflow: bool)
    ensures |key| == 0 ==> stack == [] && !overflow
    ensures |key| > 0 ==> (overflow <==> DescentDepth(t, key) > capacity)
    ensures |key| > 0 && !overflow ==> |stack| == DescentDepth(t, key)
    ensures |stack| <= capacity
  {
    stack := [];
    overflow := false;
    if |key| == 0 {
      return;
    }
    var n := t;
    var alive := true;
    var offset: nat := 0;
    while alive && offset < |key|
      invariant offset <= |key|
      invariant |stack| <= capacity
      invariant alive && offset < |key| ==>
        DescentDepth(t, key) == |stack| + DescentDepth(n, key[offset..])
      invariant !(alive && offset < |key|) ==> DescentDepth(t, key) == |stack|
      decreases alive, n
    {
      if |stack| == capacity {
        overflow := true;
        return;
      }
      stack := stack + [n];
      ghost var rest := key[offset..];
      var localOffset;
      offset, localOffset := MatchSegment(key, offset, n.seg);
      if offset == |key| {
        // the key is used up: the node is marked (or not) and the loop ends
        return;
      } else if localOffset == |n.seg| {
        var i := ScanChildren(n.children, key[offset]);
        assert rest[localOffset] == key[offset] && rest[localOffset..] == key[offset..];
        if i < |n.children| {
          n := n.children[i];
        } else {
          alive := false;
        }
      } else {
        return;
      }
    }
  }

  /** Below the root every visited node consumes at least one key byte. */
  lemma {:induction false} DescentDepthBelowRoot<V>(n: Node<V>, budget: nat, key: Key)
    requires ValidNode(n, budget, false)
    requires |key| > 0
    ensures DescentDepth(n, key) <= |key|
    decreases n
  {
    var l := CommonPrefixLength(key, n.seg);
    if l < |key| && l == |n.seg| {
      match ChildIndex(n.children, key[l])
      case Some(i) =>
        DescentDepthBelowRoot(n.children[i], budget - |n.seg|, key[l..]);
      case None =>
    }
  }

  /** The descent of a whole trie pushes at most one node more than the key
      has bytes. */
  lemma DescentDepthBound<V>(t: Node<V>, key: Key)
    requires ValidTrie(t)
    requires |key| > 0
    ensures DescentDepth(t, key) <= |key| + 1
  {
    var l := CommonPrefixLength(key, t.seg);
    match ChildIndex(t.children, key[l])
    case Some(i) =>
      DescentDepthBelowRoot(t.children[i], TM_MAX_STRING_LEN, key);
    case None =>
  }

  /** With `TM_MAX_STRING_LEN + 1` slots the descent never overflows, for any
      key that fits `tm_len_t`. */
  lemma CorrectedStackSuffices<V>(t: Node<V>, key: Key)
    requires ValidTrie(t)
    requires 0 < |key| <= TM_MAX_STRING_LEN
    ensures DescentDepth(t, key) <= STACK_SLOTS
  {
    DescentDepthBound(t, key);
  }

  /** The byte the counterexample keys are made of (`'a'`). */
  const A: byte := 0x61

  /** `m` copies of `A`. */
  function Repeat(m: nat): (r: Key)
    ensures |r| == m
    ensures forall i :: 0 <= i < m ==> r[i] == A
  {
    seq(m, _ => A)
  }

  /** A chain of `m` one-byte live entries, each the only child of the one
      above: the subtree holding `A`, `AA`, ..., `A^m`. */
  function ChainNode<V>(m: nat, v: V): (r: Node<V>)
    requires m >= 1
  {
    if m == 1 then Node([A], [], Some(v), true, false)
    else Node([A], [ChainNode(m - 1, v)], Some(v), true, false)
  }

  /** The trie holding `A`, `AA`, ..., `A^m`. */
  function Chain<V>(m: nat, v: V): Node<V>
    requires m >= 1
  {
    Node([], [ChainNode(m, v)], None, false, false)
  }

  /** A chain of `m` nodes is a valid, compacted subtree within any path budget
      of at least `m`. */
  lemma {:induction false} ChainNodeValid<V>(m: nat, v: V, budget: nat)
    requires 1 <= m <= budget
    ensures ValidNode(ChainNode(m, v), budget, false)
    ensures NodeTidy(ChainNode(m, v)) && Compacted(ChainNode(m, v))
  {
    if m > 1 {
      ChainNodeValid(m - 1, v, budget - 1);
    }
  }

  /** The next longer key's path through a chain ends at a node with room for
      a new child. */
  lemma {:induction false} ChainNodeFits<V>(m: nat, v: V)
    requires m >= 1
    ensures AddFits(ChainNode(m, v), Repeat(m + 1))
  {
    var n := ChainNode(m, v);
    var key := Repeat(m + 1);
    assert CommonPrefixLength(key, n.seg) == 1 by {
      CommonPrefixLengthUnique(key, [A], 1);
    }
    if m > 1 {
      ChainNodeFits(m - 1, v);
      assert key[1..] == Repeat(m);
      assert ChildIndex(n.children, A) == Some(0);
    } else {
      assert ChildIndex(n.children, A) == None;
    }
  }

  /** Adding `A^(m+1)` to the chain of `m` nodes extends it by one node. */
  lemma {:induction false} ChainNodeGrows<V>(m: nat, v: V)
    requires m >= 1
    ensures AddFits(ChainNode(m, v), Repeat(m + 1))
    ensures AddAt(ChainNode(m, v), Repeat(m + 1), v, None).node == ChainNode(m + 1, v)
  {
    ChainNodeFits(m, v);
    if m > 1 {
      ChainNodeGrows(m - 1, v);
      ChainNodeGrowsStep(m, v);
    } else {
      ChainNodeGrowsFirst(v);
    }
  }

  /** The one-node chain gets its first child. */
  lemma ChainNodeGrowsFirst<V>(v: V)
    ensures AddFits(ChainNode(1, v), Repeat(2))
    ensures AddAt(ChainNode(1, v), Repeat(2), v, None).node == ChainNode(2, v)
  {
    var n := ChainNode(1, v);
    var key := Repeat(2);
    assert CommonPrefixLength(key, n.seg) == 1 by {
      CommonPrefixLengthUnique(key, [A], 1);
    }
    assert ChildIndex(n.children, A) == None;
    AddAtAppends(n, key, v, None);
    assert key[1..2] == [A];
  }

  /** A longer chain grows at its bottom, through its only child. */
  lemma ChainNodeGrowsStep<V>(m: nat, v: V)
    requires m > 1
    requires AddFits(ChainNode(m, v), Repeat(m + 1))
    requires AddFits(ChainNode(m - 1, v), Repeat(m))
    requires AddAt(ChainNode(m - 1, v), Repeat(m), v, None).node == ChainNode(m, v)
    ensures AddAt(ChainNode(m, v), Repeat(m + 1), v, None).node == ChainNode(m + 1, v)
  {
    var n := ChainNode(m, v);
    var key := Repeat(m + 1);
    assert CommonPrefixLength(key, n.seg) == 1 by {
      CommonPrefixLengthUnique(key, [A], 1);
    }
    assert key[1..] == Repeat(m);
    assert ChildIndex(n.children, A) == Some(0);
    AddAtDescends(n, key, v, None, 0);
  }

  /** The chain trie is what Add builds from the empty trie by inserting `A`,
      `AA`, ..., `A^m` in turn (the first step shown here, every later one by
      `ChainGrows`). */
  lemma ChainStarts<V>(v: V)
    ensures Add(NewTrieMap(), Repeat(1), v, None).node == Chain(1, v)
  {
    var key := Repeat(1);
    assert CommonPrefixLength(key, []) == 0;
    assert key[0..1] == [A];
  }

  /** Each insertion of the next longer key extends the chain trie by one node. */
  lemma ChainGrows<V>(m: nat, v: V)
    requires 1 <= m < TM_MAX_STRING_LEN
    ensures ValidTrie(Chain(m, v)) && AddFits(Chain(m, v), Repeat(m + 1))
    ensures Add(Chain(m, v), Repeat(m + 1), v, None).node == Chain(m + 1, v)
  {
    ChainNodeValid(m, v, TM_MAX_STRING_LEN);
    ChainNodeGrows(m, v);
    var key := Repeat(m + 1);
    assert CommonPrefixLength(key, []) == 0;
    assert key[0..] == key;
  }

  /** The descent along `A^m` through a chain of `m` nodes visits all of them. */
  lemma {:induction false} ChainNodeDepth<V>(m: nat, v: V)
    requires m >= 1
    ensures DescentDepth(ChainNode(m, v), Repeat(m)) == m
  {
    var key := Repeat(m);
    assert CommonPrefixLength(key, [A]) == 1 by {
      CommonPrefixLengthUnique(key, [A], 1);
    }
    if m > 1 {
      assert key[1..] == Repeat(m - 1);
      ChainNodeDepth(m - 1, v);
    }
  }

  /** The counterexample: the chain trie holding `A`, ..., `A^65535` is a valid
      trie that Add builds, and deleting the longest key `A^65535` (a length
      `tm_len_t` allows) visits 65536 nodes, one more than the declared stack
      holds: the last push writes `stack[65535]`, past the end of the array. */
  lemma StackOverflowAsWritten<V>(v: V)
    ensures ValidTrie(Chain(TM_MAX_STRING_LEN, v))
    ensures |Repeat(TM_MAX_STRING_LEN)| == TM_MAX_STRING_LEN
    ensures DescentDepth(Chain(TM_MAX_STRING_LEN, v), Repeat(TM_MAX_STRING_LEN)) == STACK_SLOTS_AS_WRITTEN + 1
  {
    var m := TM_MAX_STRING_LEN;
    ChainNodeValid(m, v, TM_MAX_STRING_LEN);
    ChainNodeDepth(m, v);
    var key := Repeat(m);
    assert CommonPrefixLength(key, []) == 0;
    assert key[0..] == key;
  }
}
