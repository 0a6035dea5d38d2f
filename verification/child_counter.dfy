/** The child counter of `__trieMapNode_AddChild` (triemap.c): `numChildren` is a
    `u_int8_t` and is incremented without a check. A node can need one child
    per byte value, 256 in all, but the 256th append wraps the counter to 0,
    after which the node reaches none of its children. The rest of the model
    gives the counter room for 256 children. */
module ChildCounter {
  import opened Wrappers
  import opened TrieNode
  import opened TrieLookup
  import opened TrieAdd

  /** `n->numChildren++` on a `u_int8_t`. */
  function IncrementAsWritten(count: nat): (r: nat)
    ensures r < 256
    ensures count < 255 ==> r == count + 1
    ensures count == 255 ==> r == 0
  {
    (count + 1) % 256
  }

  /** `__trieMapNode_AddChild` as written: the new leaf goes into the slot after
      the old children, but the node reaches only as many children as its
      counter says after the increment. */
  function AddChildAsWritten<V>(n: Node<V>, str: Key, offset: nat, len: nat, value: V): (r: Node<V>)
    requires offset < len <= |str|
    requires |n.children| <= 255
    ensures |r.children| == IncrementAsWritten(|n.children|)
    ensures |n.children| < 255 ==> r == AddChild(n, str, offset, len, value)
  {
    var all := n.children + [NewNode(str, offset, len, Some(value), true)];
    n.(children := all[..IncrementAsWritten(|n.children|)])
  }

  /** The one-byte entry `[b]`. */
  function Leaf<V>(b: byte, v: V): Node<V> {
    Node([b], [], Some(v), true, false)
  }

  /** The leaves for the bytes `0 .. m-1`, in insertion order. */
  function FanChildren<V>(m: nat, v: V): (r: seq<Node<V>>)
    requires m <= 256
    ensures |r| == m
    ensures forall i :: 0 <= i < m ==> r[i] == Leaf(i as byte, v)
  {
    if m == 0 then [] else FanChildren(m - 1, v) + [Leaf((m - 1) as byte, v)]
  }

  /** The trie holding the one-byte keys `[0]`, ..., `[m-1]`: a root with `m`
      children. */
  function Fan<V>(m: nat, v: V): Node<V>
    requires m <= 256
  {
    Node([], FanChildren(m, v), None, false, false)
  }

  /** Every fan is a valid trie, up to one child per byte value. */
  lemma FanValid<V>(m: nat, v: V)
    requires m <= 256
    ensures ValidTrie(Fan(m, v))
  {
    var cs := FanChildren(m, v);
    assert forall i :: 0 <= i < m ==> FirstByte(cs[i]) == i as byte;
    assert forall i :: 0 <= i < m ==> ValidNode(cs[i], TM_MAX_STRING_LEN, false);
  }

  /** The fan is what Add builds from the empty trie: it starts empty, and each
      next one-byte key appends one leaf at the root. */
  lemma FanGrows<V>(m: nat, v: V)
    requires m < 256
    ensures Fan(0, v) == NewTrieMap()
    ensures Add(Fan(m, v), [m as byte], v, None).node == Fan(m + 1, v)
  {
    var t := Fan(m, v);
    var key: Key := [m as byte];
    FanValid(m, v);
    assert CommonPrefixLength(key, t.seg) == 0;
    assert forall i :: 0 <= i < m ==> FirstByte(t.children[i]) != m as byte;
    ValidNodeAddFits(t, TM_MAX_STRING_LEN, true, key);
    AddAtAppends(t, key, v, None);
    assert key[0..1] == key;
  }

  /** The counterexample: the fan of the keys `[0]`, ..., `[254]` is a valid
      trie whose root has 255 children and no child for byte 255. Adding `[255]`
      appends at the root and wraps the counter to 0: afterwards neither the new
      key nor any earlier one is found. */
  lemma CounterWrapsAsWritten<V>(v: V)
    ensures ValidTrie(Fan(255, v))
    ensures ChildIndex(Fan(255, v).children, 255).None?
    ensures |Fan(255, v).children| == 255
    ensures Find(Fan(255, v), [0]) == Some(v)
    ensures var t := AddChildAsWritten(Fan(255, v), [255], 0, 1, v);
      t.children == [] && Find(t, [0]) == None && Find(t, [255]) == None
  {
    var t := Fan(255, v);
    FanValid(255, v);
    assert forall i :: 0 <= i < 255 ==> FirstByte(t.children[i]) != 255;
    LookupCases(t, [0]);
    assert [0][0..] == [0] && t.children[0] == Leaf(0, v);
    LookupCases(Leaf(0, v), [0]);
    var t' := AddChildAsWritten(t, [255], 0, 1, v);
    LookupCases(t', [0]);
    LookupCases(t', [255]);
  }

  /** With a counter that holds 256, the same insertion keeps every key: the
      result is the full fan, and both the earlier keys and the new one are
      found. */
  lemma CorrectedCounterKeepsKeys<V>(v: V)
    ensures var t := Add(Fan(255, v), [255], v, None).node;
      t == Fan(256, v) && |t.children| == 256 &&
      Find(t, [0]) == Some(v) && Find(t, [255]) == Some(v)
  {
    FanGrows(255, v);
    FanValid(255, v);
    InsertThenFind(Fan(255, v), [255], v);
    var t := Fan(256, v);
    assert t.children[0] == Leaf(0, v);
    LookupCases(t, [0]);
    assert [0][0..] == [0];
    LookupCases(Leaf(0, v), [0]);
  }
}
