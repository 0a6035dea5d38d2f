/** The trie node (triemap.h) and the node-store primitives of triemap.c:
    allocation, child append, split and single-child merge. Nodes are immutable
    values here: every primitive that the C code performs by reallocating a node
    returns the new node instead, and the caller stores it where the old pointer
    was. */
module TrieNode {
  import opened Wrappers

  /** A key byte (`unsigned char`). */
  newtype byte = x: int | 0 <= x < 256

  /** A key, or a node's segment of a key. */
  type Key = seq<byte>

  /** `tm_len_t` is `u_int16_t`: the largest segment and key length. */
  const TM_MAX_STRING_LEN: nat := 0xFFFF

  /** The largest child count: one child per byte value. The source stores the
      count in a `u_int8_t`, which holds at most 255; this model gives the
      counter room for 256 (see the ChildCounter module). */
  const MAX_CHILDREN: nat := 256

  /** `TrieMapReplaceFunc`: given the node's previous value (absent for a node
      that was not a live entry) and the new value, returns the value to store. */
  type MergeFn<!V> = (Option<V>, V) -> V

  /** A trie node: its segment `str[0..len]`, its children in array order, its
      value slot and the two flag bits `TM_NODE_TERMINAL` and `TM_NODE_DELETED`. */
  datatype Node<V> = Node(seg: Key, children: seq<Node<V>>, value: Option<V>, terminal: bool, deleted: bool)

  /** The two platform sizes the memory accounting depends on:
      `sizeof(TrieMapNode)` and `sizeof(TrieMapNode *)`. */
  datatype Layout = Layout(header: nat, pointer: nat)

  /** `__trieMapNode_Sizeof`: header, child-pointer table, segment bytes plus the
      terminating zero byte. */
  function Sizeof(layout: Layout, numChildren: nat, slen: nat): nat {
    layout.header + numChildren * layout.pointer + (slen + 1)
  }

  /** `__newTrieMapNode(str, offset, len, 0, value, terminal)`: a childless node
      whose segment is the copy `str[offset..len]`. The callers that pass a
      non-zero child count fill the children right away; they do so here with an
      update of `children`. */
  function NewNode<V>(str: Key, offset: nat, len: nat, value: Option<V>, terminal: bool): (r: Node<V>)
    requires offset <= len <= |str|
    ensures r.seg == str[offset..len] && |r.seg| == len - offset
    ensures r.children == [] && r.value == value
    ensures r.terminal == terminal && !r.deleted
  {
    Node(str[offset..len], [], value, terminal, false)
  }

  /** `NewTrieMap`: the empty root. */
  function NewTrieMap<V>(): (r: Node<V>)
    ensures ValidTrie(r)
    ensures r.children == [] && r.value == None
  {
    NewNode([], 0, 0, None, false)
  }

  /** `child->str[0]`: the first byte of a node's segment. A node string is
      allocated with one zeroed byte past its end, so an empty segment reads 0. */
  function FirstByte<V>(n: Node<V>): byte {
    if |n.seg| > 0 then n.seg[0] else 0
  }

  /** The child scan of Add, Find and Delete: the index of the first child whose
      first byte is `b`. */
  function ChildIndex<V>(cs: seq<Node<V>>, b: byte): (r: Option<nat>)
    ensures r.Some? ==> r.value < |cs| && FirstByte(cs[r.value]) == b
    ensures r.Some? ==> forall j :: 0 <= j < r.value ==> FirstByte(cs[j]) != b
    ensures r.None? ==> forall j :: 0 <= j < |cs| ==> FirstByte(cs[j]) != b
  {
    if |cs| == 0 then None
    else if FirstByte(cs[0]) == b then Some(0)
    else match ChildIndex(cs[1..], b)
      case None => None
      case Some(j) => Some(j + 1)
  }

  /** The byte-matching loop of Add, Find and Delete: how many leading bytes of
      `a` and `b` agree. */
  function CommonPrefixLength(a: Key, b: Key): (l: nat)
    ensures l <= |a| && l <= |b|
    ensures a[..l] == b[..l]
    ensures l < |a| && l < |b| ==> a[l] != b[l]
  {
    if |a| == 0 || |b| == 0 || a[0] != b[0] then 0
    else
      var l' := CommonPrefixLength(a[1..], b[1..]);
      assert a[..l' + 1] == [a[0]] + a[1..][..l'];
      assert b[..l' + 1] == [b[0]] + b[1..][..l'];
      l' + 1
  }

  /** Equal prefixes of length `l` agree at every index below `l`. */
  lemma AgreeBelow(a: Key, b: Key, l: nat)
    requires l <= |a| && l <= |b|
    requires a[..l] == b[..l]
    ensures forall i :: 0 <= i < l ==> a[i] == b[i]
  {
    forall i | 0 <= i < l
      ensures a[i] == b[i]
    {
      assert a[..l][i] == b[..l][i];
    }
  }

  /** Any length with the three defining properties is the common prefix length. */
  lemma CommonPrefixLengthUnique(a: Key, b: Key, l: nat)
    requires l <= |a| && l <= |b|
    requires a[..l] == b[..l]
    requires l < |a| && l < |b| ==> a[l] != b[l]
    ensures CommonPrefixLength(a, b) == l
  {
    var c := CommonPrefixLength(a, b);
    AgreeBelow(a, b, l);
    AgreeBelow(a, b, c);
  }

  /** The prefix length is `|a| == |b|` exactly when the two keys are equal. */
  lemma CommonPrefixFull(a: Key, b: Key)
    ensures (CommonPrefixLength(a, b) == |a| && |a| == |b|) <==> a == b
  {
    if a == b {
      CommonPrefixLengthUnique(a, b, |a|);
    }
    assert a == a[..|a|] && b == b[..|b|];
  }

  /** Matching against a shared prefix consumes the prefix. */
  lemma CommonPrefixLengthOfPrefixed(p: Key, a: Key, b: Key)
    ensures CommonPrefixLength(p + a, p + b) == |p| + CommonPrefixLength(a, b)
  {
    var l := CommonPrefixLength(a, b);
    assert (p + a)[..|p| + l] == p + a[..l];
    assert (p + b)[..|p| + l] == p + b[..l];
    if l < |a| && l < |b| {
      assert (p + a)[|p| + l] == a[l] && (p + b)[|p| + l] == b[l];
    }
    CommonPrefixLengthUnique(p + a, p + b, |p| + l);
  }

  /** Matching against a truncated segment stops at the truncation point. */
  lemma CommonPrefixLengthOfTruncated(a: Key, b: Key, t: nat)
    requires t <= |b|
    ensures CommonPrefixLength(a, b[..t]) == if CommonPrefixLength(a, b) < t then CommonPrefixLength(a, b) else t
  {
    var l := CommonPrefixLength(a, b);
    var l' := if l < t then l else t;
    assert a[..l'] == a[..l][..l'] && b[..t][..l'] == b[..l][..l'];
    CommonPrefixLengthUnique(a, b[..t], l');
  }

  /** `a` is a prefix of `b`. */
  predicate IsPrefix(a: Key, b: Key) {
    |a| <= |b| && b[..|a|] == a
  }

  /** Prefix facts used when a segment is cut or joined: prefixes compose, two
      prefixes of one key are ordered by length, and a prefix of a key can be
      split off it. */
  lemma PrefixFacts(a: Key, b: Key, c: Key)
    ensures IsPrefix(a, b) && IsPrefix(b, c) ==> IsPrefix(a, c)
    ensures IsPrefix(a, c) && IsPrefix(b, c) && |a| <= |b| ==> IsPrefix(a, b)
    ensures IsPrefix(a, b) ==> b == a + b[|a|..]
    ensures IsPrefix(a, a + b)
  {
    assert (a + b)[..|a|] == a;
    if IsPrefix(a, b) && IsPrefix(b, c) {
      assert c[..|a|] == c[..|b|][..|a|];
    }
    if IsPrefix(a, c) && IsPrefix(b, c) && |a| <= |b| {
      assert b[..|a|] == c[..|b|][..|a|];
    }
  }

  /** Two keys through the same prefix are equal exactly when their remainders are. */
  lemma SameTail(p: Key, a: Key, b: Key)
    requires IsPrefix(p, a) && IsPrefix(p, b)
    ensures a == b <==> a[|p|..] == b[|p|..]
  {
    PrefixFacts(p, a, a);
    PrefixFacts(p, b, b);
  }

  /** Radix invariant on a child list: no two siblings share a first byte. */
  ghost predicate DistinctFirstBytes<V>(cs: seq<Node<V>>) {
    forall i, j :: 0 <= i < j < |cs| ==> FirstByte(cs[i]) != FirstByte(cs[j])
  }

  /** Under the radix invariant the child scan finds a child exactly when that
      child's first byte is the byte searched for. */
  lemma ChildIndexDistinct<V>(cs: seq<Node<V>>, i: nat, b: byte)
    requires DistinctFirstBytes(cs)
    requires i < |cs|
    ensures ChildIndex(cs, b) == Some(i) <==> FirstByte(cs[i]) == b
  {
  }

  /** The first bytes of a child list. */
  function FirstBytes<V>(cs: seq<Node<V>>): set<byte> {
    if |cs| == 0 then {} else {FirstByte(cs[0])} + FirstBytes(cs[1..])
  }

  /** Every byte in the list's first bytes is found by the child scan. */
  lemma {:induction false} FirstBytesFound<V>(cs: seq<Node<V>>, b: byte)
    requires b in FirstBytes(cs)
    ensures ChildIndex(cs, b).Some?
  {
    if FirstByte(cs[0]) != b {
      FirstBytesFound(cs[1..], b);
    }
  }

  /** Under the radix invariant every child contributes its own first byte. */
  lemma {:induction false} FirstBytesCount<V>(cs: seq<Node<V>>)
    requires DistinctFirstBytes(cs)
    ensures |FirstBytes(cs)| == |cs|
  {
    if |cs| > 0 {
      var rest := cs[1..];
      assert forall j :: 0 <= j < |rest| ==> rest[j] == cs[j + 1];
      FirstBytesCount(rest);
      if FirstByte(cs[0]) in FirstBytes(rest) {
        FirstBytesFound(rest, FirstByte(cs[0]));
        assert false;
      }
    }
  }

  /** The byte values below `m`. */
  function BytesBelow(m: nat): (s: set<byte>)
    requires m <= 256
    ensures |s| == m
    ensures forall b: byte :: b in s <==> (b as int) < m
  {
    if m == 0 then {} else BytesBelow(m - 1) + {(m - 1) as byte}
  }

  /** A subset is no larger than the set. */
  lemma {:induction false} SubsetSmaller(a: set<byte>, b: set<byte>)
    requires a <= b
    ensures |a| <= |b|
    decreases |a|
  {
    if a != {} {
      var x :| x in a;
      SubsetSmaller(a - {x}, b - {x});
    }
  }

  /** Pigeonhole: a radix child list in which the scan for `b` finds nothing
      has at most 255 children, so appending a child for `b` never needs more
      than one counter value per byte. */
  lemma RoomForNewChild<V>(cs: seq<Node<V>>, b: byte)
    requires DistinctFirstBytes(cs)
    requires ChildIndex(cs, b).None?
    ensures |cs| < MAX_CHILDREN
  {
    var used, all := FirstBytes(cs), BytesBelow(256) - {b};
    FirstBytesCount(cs);
    forall x | x in used
      ensures x in all
    {
      FirstBytesFound(cs, x);
    }
    SubsetSmaller(used, all);
  }

  /** `__trieMapNode_AddChild`: appends a new terminal leaf whose segment is
      `str[offset..len]`. The counter has room for one child per byte value;
      on a valid trie Add only appends where the pigeonhole bound
      `RoomForNewChild` leaves room. */
  function AddChild<V>(n: Node<V>, str: Key, offset: nat, len: nat, value: V): (r: Node<V>)
    requires offset < len <= |str|
    requires |n.children| < MAX_CHILDREN
    ensures |r.children| == |n.children| + 1 <= MAX_CHILDREN
    ensures r.children[..|n.children|] == n.children
    ensures r == n.(children := r.children)
    ensures var leaf := r.children[|n.children|];
      leaf.seg == str[offset..len] && leaf.children == [] && leaf.value == Some(value) && leaf.terminal && !leaf.deleted
  {
    n.(children := n.children + [NewNode(str, offset, len, Some(value), true)])
  }

  /** `__trieMapNode_Split`: the node keeps `seg[..offset]` and becomes an empty,
      non-terminal, non-deleted parent of one child that holds the rest of the
      segment together with all the old children, the old value and the old flags. */
  function Split<V>(n: Node<V>, offset: nat): (r: Node<V>)
    requires offset < |n.seg|
  {
    var child := NewNode(n.seg, offset, |n.seg|, n.value, n.terminal).(children := n.children, deleted := n.deleted);
    Node(n.seg[..offset], [child], None, false, false)
  }

  /** `__trieMapNode_MergeWithSingleChild`: a non-terminal node with exactly one
      child is replaced by a single node whose segment is the concatenation of
      the two segments and which takes the child's children, value and flags.
      Any other node is returned unchanged. */
  function MergeWithSingleChild<V>(n: Node<V>): (r: Node<V>)
  {
    if n.terminal || |n.children| != 1 then n
    else
      var ch := n.children[0];
      NewNode(n.seg + ch.seg, 0, |n.seg| + |ch.seg|, ch.value, ch.terminal).(children := ch.children, deleted := ch.deleted)
  }

  /** The structural invariant of a node and its subtree. `budget` bounds the
      length of every path from this node down, so that every key and every
      segment fits `tm_len_t`; only the root may have an empty segment. */
  ghost predicate ValidNode<V>(n: Node<V>, budget: nat, isRoot: bool)
    decreases n
  {
    && |n.seg| <= budget
    && (isRoot || |n.seg| > 0)
    && |n.children| <= MAX_CHILDREN
    && (n.terminal <==> n.value.Some?)
    && !(n.terminal && n.deleted)
    && DistinctFirstBytes(n.children)
    && forall i :: 0 <= i < |n.children| ==> ValidNode(n.children[i], budget - |n.seg|, false)
  }

  /** A node that needs no compaction: it is a live entry or a branching point. */
  predicate NodeTidy<V>(n: Node<V>) {
    n.terminal || |n.children| >= 2
  }

  /** Every proper descendant is tidy: no tombstoned leaf is left behind and no
      non-terminal node keeps a single child. */
  ghost predicate Compacted<V>(n: Node<V>)
    decreases n
  {
    forall i :: 0 <= i < |n.children| ==> NodeTidy(n.children[i]) && Compacted(n.children[i])
  }

  /** The invariant of a whole trie as handed to callers. */
  ghost predicate ValidTrie<V>(t: Node<V>) {
    && ValidNode(t, TM_MAX_STRING_LEN, true)
    && t.seg == []
    && !t.terminal
    && !t.deleted
    && Compacted(t)
  }

  /** A child of a valid node is a valid non-root node one segment further down. */
  lemma ChildValid<V>(n: Node<V>, budget: nat, isRoot: bool, i: nat)
    requires ValidNode(n, budget, isRoot)
    requires i < |n.children|
    ensures ValidNode(n.children[i], budget - |n.seg|, false)
    ensures |n.children[i].seg| > 0
  {
  }

  /** Replacing a child by a valid node with the same first byte keeps the
      parent valid. */
  lemma ReplaceChildValid<V>(n: Node<V>, i: nat, c: Node<V>, budget: nat, isRoot: bool)
    requires ValidNode(n, budget, isRoot)
    requires i < |n.children|
    requires ValidNode(c, budget - |n.seg|, false)
    requires FirstByte(c) == FirstByte(n.children[i])
    ensures ValidNode(n.(children := n.children[i := c]), budget, isRoot)
  {
    var cs' := n.children[i := c];
    assert forall j :: 0 <= j < |cs'| ==> FirstByte(cs'[j]) == FirstByte(n.children[j]);
  }

  /** Replacing a child by a tidy, compacted node keeps the parent compacted. */
  lemma ReplaceChildCompacted<V>(n: Node<V>, i: nat, c: Node<V>)
    requires Compacted(n)
    requires i < |n.children|
    requires NodeTidy(c) && Compacted(c)
    ensures Compacted(n.(children := n.children[i := c]))
  {
  }

  /** Dropping a child keeps the parent valid. */
  lemma RemoveChildValid<V>(n: Node<V>, i: nat, budget: nat, isRoot: bool)
    requires ValidNode(n, budget, isRoot)
    requires i < |n.children|
    ensures ValidNode(n.(children := n.children[..i] + n.children[i + 1..]), budget, isRoot)
  {
    var cs := n.children;
    var ds := cs[..i] + cs[i + 1..];
    assert forall j :: 0 <= j < |ds| ==> ds[j] == cs[if j < i then j else j + 1];
    forall a, b | 0 <= a < b < |ds|
      ensures FirstByte(ds[a]) != FirstByte(ds[b])
    {
      var a', b' := if a < i then a else a + 1, if b < i then b else b + 1;
      assert ds[a] == cs[a'] && ds[b] == cs[b'] && a' < b';
    }
  }

  /** Merging a valid non-root node with its single child yields a valid node
      with the same first byte: the joined segment still fits the path budget. */
  lemma MergeValid<V>(c: Node<V>, budget: nat)
    requires ValidNode(c, budget, false)
    ensures ValidNode(MergeWithSingleChild(c), budget, false)
    ensures FirstByte(MergeWithSingleChild(c)) == FirstByte(c)
  {
    if !c.terminal && |c.children| == 1 {
      var g := c.children[0];
      var m := MergeWithSingleChild(c);
      assert m == g.(seg := c.seg + g.seg);
      assert ValidNode(g, budget - |c.seg|, false);
      forall j | 0 <= j < |m.children|
        ensures ValidNode(m.children[j], budget - |m.seg|, false)
      {
        assert budget - |m.seg| == budget - |c.seg| - |g.seg|;
      }
    }
  }

  /** The split parent keeps the common prefix and has one child carrying the
      remainder of the segment, the old children, the old value and the old
      flags; the radix invariant and the path budget carry over. */
  lemma SplitShape<V>(n: Node<V>, offset: nat, budget: nat, isRoot: bool)
    requires offset < |n.seg|
    requires ValidNode(n, budget, isRoot)
    requires isRoot || offset > 0
    ensures var p := Split(n, offset);
      && p.seg == n.seg[..offset] && |p.children| == 1
      && p.value == None && !p.terminal && !p.deleted
      && p.children[0].seg == n.seg[offset..]
      && p.children[0] == n.(seg := n.seg[offset..])
      && FirstByte(p.children[0]) == n.seg[offset]
      && ValidNode(p, budget, isRoot)
      && ValidNode(p.children[0], budget - offset, false)
  {
    var p := Split(n, offset);
    var c := p.children[0];
    forall i | 0 <= i < |c.children|
      ensures ValidNode(c.children[i], budget - offset - |c.seg|, false)
    {
      assert budget - offset - |c.seg| == budget - |n.seg|;
    }
  }
}
