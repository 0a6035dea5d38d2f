/** Lookup (`TrieMapNode_Find`, triemap.c) and the facts about lookup that the
    insertion and deletion proofs are built from: how lookup sees a node whose
    own fields, segment or child list were edited. */
module TrieLookup {
  import opened Wrappers
  import opened TrieNode

  /** The descent shared by Find and by the first phase of Delete: match the
      key against the node's whole segment; on an exact end of both, this node is
      the key's node; when only the segment is used up, continue in the first
      child whose first byte is the next key byte; otherwise there is no node. */
  function Locate<V>(n: Node<V>, key: Key): Option<Node<V>>
    decreases n
  {
    var l := CommonPrefixLength(key, n.seg);
    if l == |key| then
      (if l == |n.seg| then Some(n) else None)
    else if l == |n.seg| then
      match ChildIndex(n.children, key[l])
      case None => None
      case Some(i) => Locate(n.children[i], key[l..])
    else None
  }

  /** The value Find reports for `key` below `n`: the located node's value,
      unless that node is a tombstone. */
  function Lookup<V>(n: Node<V>, key: Key): Option<V> {
    match Locate(n, key)
    case None => None
    case Some(m) => if m.deleted then None else m.value
  }

  /** `TrieMapNode_Find`: an empty key is never found (the descent loop is not
      entered). */
  function Find<V>(t: Node<V>, key: Key): Option<V> {
    if |key| == 0 then None else Lookup(t, key)
  }

  /** `key` runs through the whole segment of `n` and goes on into child `i`. */
  predicate RoutesTo<V>(n: Node<V>, key: Key, i: nat) {
    |n.seg| < |key| && IsPrefix(n.seg, key) && ChildIndex(n.children, key[|n.seg|]) == Some(i)
  }

  /** Lookup described without the byte loop: the key either is the segment,
      or extends it and continues in the child chosen by its next byte, or is
      absent. Mismatch mid-segment and a key ending mid-segment both fall in the
      last case. */
  lemma LookupCases<V>(n: Node<V>, key: Key)
    ensures Lookup(n, key) ==
      if key == n.seg then (if n.deleted then None else n.value)
      else if |n.seg| < |key| && IsPrefix(n.seg, key) then
        match ChildIndex(n.children, key[|n.seg|])
        case None => None
        case Some(i) => Lookup(n.children[i], key[|n.seg|..])
      else None
  {
    assert n.seg[..|n.seg|] == n.seg;
    CommonPrefixFull(key, n.seg);
    if |n.seg| < |key| && IsPrefix(n.seg, key) {
      CommonPrefixLengthUnique(key, n.seg, |n.seg|);
    }
  }

  /** Following a route into a child. */
  lemma LookupThroughChild<V>(n: Node<V>, key: Key, i: nat)
    requires RoutesTo(n, key, i)
    ensures Lookup(n, key) == Lookup(n.children[i], key[|n.seg|..])
  {
    LookupCases(n, key);
  }

  /** Children with the same first bytes are scanned alike. */
  lemma ChildIndexSameBytes<V>(cs: seq<Node<V>>, ds: seq<Node<V>>, b: byte)
    requires |cs| == |ds|
    requires forall j :: 0 <= j < |cs| ==> FirstByte(cs[j]) == FirstByte(ds[j])
    ensures ChildIndex(cs, b) == ChildIndex(ds, b)
  {
    match ChildIndex(cs, b)
    case None =>
    case Some(i) =>
  }

  /** Appending a child whose first byte no sibling has only adds a route for
      that byte. */
  lemma ChildIndexAppend<V>(cs: seq<Node<V>>, c: Node<V>, b: byte)
    requires ChildIndex(cs, FirstByte(c)).None?
    ensures ChildIndex(cs + [c], b) ==
      if FirstByte(c) == b then Some(|cs|) else ChildIndex(cs, b)
  {
    var ds := cs + [c];
    assert forall j :: 0 <= j < |cs| ==> ds[j] == cs[j];
    assert ds[|cs|] == c;
    match ChildIndex(cs, b)
    case None =>
    case Some(i) =>
  }

  /** The child scan's answer is determined by its contract: the first child
      with the byte, or none. */
  lemma ChildIndexUnique<V>(cs: seq<Node<V>>, b: byte, r: Option<nat>)
    requires r.Some? ==> r.value < |cs| && FirstByte(cs[r.value]) == b
    requires r.Some? ==> forall x :: 0 <= x < r.value ==> FirstByte(cs[x]) != b
    requires r.None? ==> forall x :: 0 <= x < |cs| ==> FirstByte(cs[x]) != b
    ensures ChildIndex(cs, b) == r
  {
  }

  /** Removing child `i` of a radix child list removes exactly the route of its
      first byte; every other byte still reaches the same child. */
  lemma ChildIndexRemove<V>(cs: seq<Node<V>>, i: nat, b: byte)
    requires i < |cs|
    requires DistinctFirstBytes(cs)
    ensures var ds := cs[..i] + cs[i + 1..];
      ChildIndex(ds, b) ==
        match ChildIndex(cs, b)
        case None => None
        case Some(j) => if j < i then Some(j) else if j == i then None else Some(j - 1)
  {
    var ds := cs[..i] + cs[i + 1..];
    assert forall x :: 0 <= x < |ds| ==> ds[x] == cs[if x < i then x else x + 1];
    match ChildIndex(cs, b)
    case None =>
      ChildIndexUnique(ds, b, None);
    case Some(j) =>
      if j == i {
        assert forall x :: 0 <= x < |ds| ==> FirstByte(ds[x]) != FirstByte(cs[i]) by {
          forall x | 0 <= x < |ds|
            ensures FirstByte(ds[x]) != FirstByte(cs[i])
          {
            assert FirstByte(cs[if x < i then x else x + 1]) != FirstByte(cs[i]);
          }
        }
        ChildIndexUnique(ds, b, None);
      } else if j < i {
        ChildIndexUnique(ds, b, Some(j));
      } else {
        assert ds[j - 1] == cs[j];
        ChildIndexUnique(ds, b, Some(j - 1));
      }
  }

  /** Editing the value and flags of a node changes lookup at its own key only. */
  lemma LookupOwnFields<V>(n: Node<V>, value: Option<V>, terminal: bool, deleted: bool, key: Key)
    ensures Lookup(n.(value := value, terminal := terminal, deleted := deleted), key) ==
      if key == n.seg then (if deleted then None else value) else Lookup(n, key)
  {
    LookupCases(n, key);
    LookupCases(n.(value := value, terminal := terminal, deleted := deleted), key);
  }

  /** Prepending the same bytes to a node's segment and to the key does not
      change the lookup. */
  lemma LookupUnderPrefix<V>(m: Node<V>, p: Key, r: Key)
    ensures Lookup(m.(seg := p + m.seg), p + r) == Lookup(m, r)
  {
    var m' := m.(seg := p + m.seg);
    var k := p + r;
    LookupCases(m, r);
    LookupCases(m', k);
    assert (k == m'.seg) <==> (r == m.seg) by {
      if k == m'.seg {
        assert r == k[|p|..] && m.seg == m'.seg[|p|..];
      }
    }
    if |m.seg| < |r| {
      assert k[..|m'.seg|] == p + r[..|m.seg|];
      assert IsPrefix(m'.seg, k) <==> IsPrefix(m.seg, r) by {
        if k[..|m'.seg|] == m'.seg {
          assert r[..|m.seg|] == k[..|m'.seg|][|p|..];
        }
      }
      assert k[|m'.seg|] == r[|m.seg|];
      assert k[|m'.seg|..] == r[|m.seg|..];
    }
  }

  /** Replacing child `i` by a node with the same first byte changes lookup only
      for keys routed into that child, where the new child answers. */
  lemma LookupReplaceChild<V>(n: Node<V>, i: nat, c: Node<V>, key: Key)
    requires i < |n.children|
    requires FirstByte(c) == FirstByte(n.children[i])
    ensures Lookup(n.(children := n.children[i := c]), key) ==
      if RoutesTo(n, key, i) then Lookup(c, key[|n.seg|..]) else Lookup(n, key)
  {
    var n' := n.(children := n.children[i := c]);
    LookupCases(n, key);
    LookupCases(n', key);
    if |n.seg| < |key| {
      ChildIndexSameBytes(n.children, n'.children, key[|n.seg|]);
    }
  }

  /** Replacing the child that `key` routes to by one that differs from it only
      at the rest of `key` changes the parent only at `key`. */
  lemma ReplaceChildUpdatesOneKey<V>(n: Node<V>, i: nat, c: Node<V>, key: Key, w: Option<V>, k: Key)
    requires RoutesTo(n, key, i)
    requires FirstByte(c) == FirstByte(n.children[i])
    requires forall x :: Lookup(c, x) == if x == key[|n.seg|..] then w else Lookup(n.children[i], x)
    ensures Lookup(n.(children := n.children[i := c]), k) == if k == key then w else Lookup(n, k)
  {
    LookupReplaceChild(n, i, c, k);
    if RoutesTo(n, k, i) {
      LookupThroughChild(n, k, i);
      SameTail(n.seg, k, key);
    }
  }

  /** Appending a child with a fresh first byte changes lookup only for keys
      routed into the new child. */
  lemma LookupAppendChild<V>(n: Node<V>, c: Node<V>, key: Key)
    requires ChildIndex(n.children, FirstByte(c)).None?
    ensures Lookup(n.(children := n.children + [c]), key) ==
      if |n.seg| < |key| && IsPrefix(n.seg, key) && key[|n.seg|] == FirstByte(c)
      then Lookup(c, key[|n.seg|..])
      else Lookup(n, key)
  {
    var n' := n.(children := n.children + [c]);
    LookupCases(n, key);
    LookupCases(n', key);
    if |n.seg| < |key| {
      ChildIndexAppend(n.children, c, key[|n.seg|]);
    }
  }

  /** A fresh terminal leaf holds exactly its own key. */
  lemma LookupLeaf<V>(seg: Key, v: V, key: Key)
    ensures Lookup(Node(seg, [], Some(v), true, false), key) == if key == seg then Some(v) else None
  {
    LookupCases(Node(seg, [], Some(v), true, false), key);
  }

  /** A childless tombstone holds nothing. */
  lemma LookupDeadLeaf<V>(n: Node<V>, key: Key)
    requires n.deleted && n.children == []
    ensures Lookup(n, key) == None
  {
    LookupCases(n, key);
  }

  /** `__trieMapNode_Split` does not change what any key finds. */
  lemma SplitPreservesLookup<V>(n: Node<V>, offset: nat, key: Key)
    requires offset < |n.seg|
    ensures Lookup(Split(n, offset), key) == Lookup(n, key)
  {
    var p := Split(n, offset);
    var c := p.children[0];
    var pre := n.seg[..offset];
    assert c == n.(seg := n.seg[offset..]);
    assert n == c.(seg := pre + c.seg);
    assert IsPrefix(pre, n.seg) && key[..|key|] == key;
    PrefixFacts(pre, n.seg, key);
    LookupCases(p, key);
    LookupCases(n, key);
    if |pre| < |key| && IsPrefix(pre, key) {
      PrefixFacts(pre, key, key);
      LookupUnderPrefix(c, pre, key[offset..]);
      assert IsPrefix(n.seg, key) ==> key[offset] == n.seg[offset] by {
        if IsPrefix(n.seg, key) {
          assert key[..|n.seg|][offset] == n.seg[offset];
        }
      }
    }
  }

  /** Merging a non-terminal node with its single child does not change what
      any key finds, and keeps the node's first byte. */
  lemma MergePreservesLookup<V>(c: Node<V>, budget: nat, key: Key)
    requires ValidNode(c, budget, false)
    ensures FirstByte(MergeWithSingleChild(c)) == FirstByte(c)
    ensures Lookup(MergeWithSingleChild(c), key) == Lookup(c, key)
  {
    if !c.terminal && |c.children| == 1 {
      var g := c.children[0];
      var m := MergeWithSingleChild(c);
      assert m == g.(seg := c.seg + g.seg);
      assert |g.seg| > 0 && key[..|key|] == key;
      PrefixFacts(c.seg, g.seg, key);
      PrefixFacts(c.seg, m.seg, key);
      LookupCases(c, key);
      LookupCases(m, key);
      if IsPrefix(c.seg, key) {
        var r := key[|c.seg|..];
        PrefixFacts(c.seg, key, key);
        LookupUnderPrefix(g, c.seg, r);
        LookupCases(g, r);
        assert IsPrefix(g.seg, r) ==> r[0] == g.seg[0] by {
          if IsPrefix(g.seg, r) {
            assert r[..|g.seg|][0] == g.seg[0];
          }
        }
      }
    }
  }

  /** Removing a childless tombstone from a radix child list does not change
      what any key finds. */
  lemma RemoveDeadChildPreservesLookup<V>(n: Node<V>, i: nat, key: Key)
    requires i < |n.children|
    requires DistinctFirstBytes(n.children)
    requires n.children[i].deleted && n.children[i].children == []
    ensures Lookup(n.(children := n.children[..i] + n.children[i + 1..]), key) == Lookup(n, key)
  {
    var n' := n.(children := n.children[..i] + n.children[i + 1..]);
    LookupCases(n, key);
    LookupCases(n', key);
    if |n.seg| < |key| && IsPrefix(n.seg, key) {
      ChildIndexRemove(n.children, i, key[|n.seg|]);
      LookupDeadLeaf(n.children[i], key[|n.seg|..]);
    }
  }

  /** The byte-matching loop of Find and Delete: advances `offset` over the
      bytes of `key` that agree with the segment. */
  method MatchSegment(key: Key, offset: nat, seg: Key) returns (offset': nat, localOffset: nat)
    requires offset <= |key|
    ensures localOffset == CommonPrefixLength(key[offset..], seg)
    ensures offset' == offset + localOffset <= |key|
  {
    offset' := offset;
    localOffset := 0;
    while offset' < |key| && localOffset < |seg| && key[offset'] == seg[localOffset]
      invariant offset <= offset' <= |key|
      invariant localOffset == offset' - offset <= |seg|
      invariant key[offset..offset'] == seg[..localOffset]
    {
      assert key[offset..offset' + 1] == key[offset..offset'] + [key[offset']];
      assert seg[..localOffset + 1] == seg[..localOffset] + [seg[localOffset]];
      offset' := offset' + 1;
      localOffset := localOffset + 1;
    }
    assert key[offset..][..localOffset] == key[offset..offset'];
    CommonPrefixLengthUnique(key[offset..], seg, localOffset);
  }

  /** The child scan of Find and Delete: the index of the first child whose first
      byte is `b`, or the child count when there is none. */
  method ScanChildren<V>(cs: seq<Node<V>>, b: byte) returns (i: nat)
    ensures i <= |cs|
    ensures i < |cs| ==> ChildIndex(cs, b) == Some(i)
    ensures i == |cs| ==> ChildIndex(cs, b) == None
  {
    i := 0;
    while i < |cs| && FirstByte(cs[i]) != b
      invariant i <= |cs|
      invariant forall j :: 0 <= j < i ==> FirstByte(cs[j]) != b
    {
      i := i + 1;
    }
  }

  /** The loop of `TrieMapNode_Find` as written: match the segment, then either
      answer, move to the matching child, or give up; the node pointer becomes
      NULL when no child matches. */
  method FindLoop<V>(t: Node<V>, key: Key) returns (r: Option<V>)
    ensures r == Find(t, key)
  {
    var n := t;
    var alive := true;
    var offset: nat := 0;
    while alive && offset < |key|
      invariant offset <= |key|
      invariant Find(t, key) == if alive && offset < |key| then Lookup(n, key[offset..]) else None
      decreases alive, n
    {
      ghost var rest := key[offset..];
      var localOffset;
      offset, localOffset := MatchSegment(key, offset, n.seg);
      if offset == |key| {
        if localOffset == |n.seg| {
          return if n.deleted then None else n.value;
        }
        // the key ended inside the segment: the loop ends and Find answers NULL
        return None;
      } else if localOffset == |n.seg| {
        var i := ScanChildren(n.children, key[offset]);
        assert rest[localOffset] == key[offset] && rest[localOffset..] == key[offset..];
        if i < |n.children| {
          n := n.children[i];
        } else {
          alive := false;
        }
      } else {
        return None;
      }
    }
    return None;
  }
}
