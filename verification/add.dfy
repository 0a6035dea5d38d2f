/** Insertion (`TrieMapNode_Add`, triemap.c): longest common prefix, then split,
    value replacement/merge, descent into the matching child, or a new leaf. */
module TrieAdd {
  import opened Wrappers
  import opened TrieNode
  import opened TrieLookup
  import opened TrieContents

  /** The rebuilt subtree (what the C code writes back through `*np` or into the
      parent's child slot) and the return code: 1 for a new entry, 0 when a live
      entry's value was only replaced. */
  datatype AddOutcome<V> = AddOutcome(node: Node<V>, rc: int)

  /** The node that would receive a new leaf along `key`'s path still has room
      for one more child. A split parent always has room (it has one child
      before the append); on a valid trie every node has (`ValidNodeAddFits`). */
  predicate AddFits<V>(n: Node<V>, key: Key)
    decreases n
  {
    if |key| == 0 then true
    else
      var l := CommonPrefixLength(key, n.seg);
      if l < |n.seg| || l == |key| then true
      else match ChildIndex(n.children, key[l])
        case Some(i) => AddFits(n.children[i], key[l..])
        case None => |n.children| < MAX_CHILDREN
  }

  /** Every valid subtree has room along every key's path: where the child
      scan finds nothing, the radix invariant leaves fewer than 256 children. */
  lemma {:induction false} ValidNodeAddFits<V>(n: Node<V>, budget: nat, isRoot: bool, key: Key)
    requires ValidNode(n, budget, isRoot)
    ensures AddFits(n, key)
    decreases n
  {
    if |key| > 0 {
      var l := CommonPrefixLength(key, n.seg);
      if l == |n.seg| && l < |key| {
        match ChildIndex(n.children, key[l])
        case Some(i) =>
          ChildValid(n, budget, isRoot, i);
          ValidNodeAddFits(n.children[i], budget - |n.seg|, false, key[l..]);
        case None =>
          RoomForNewChild(n.children, key[l]);
      }
    }
  }

  /** The split branch of `TrieMapNode_Add`: the key diverges inside the
      segment, or ends there. The node is split at the divergence; the split
      parent then becomes the key's entry (no merge callback is consulted), or
      gets a new leaf for the rest of the key. */
  function SplitInsert<V>(n: Node<V>, key: Key, v: V): (r: Node<V>)
    requires CommonPrefixLength(key, n.seg) < |n.seg|
    ensures r.seg == n.seg[..CommonPrefixLength(key, n.seg)]
  {
    var l := CommonPrefixLength(key, n.seg);
    var p := Split(n, l);
    if l == |key| then p.(value := Some(v), terminal := true)
    else AddChild(p, key, l, |key|, v)
  }

  /** `TrieMapNode_Add` on the subtree `n` with the unconsumed part `key` of the key. */
  function AddAt<V>(n: Node<V>, key: Key, v: V, cb: Option<MergeFn<V>>): (r: AddOutcome<V>)
    requires AddFits(n, key)
    ensures r.rc == 0 || r.rc == 1
    ensures |key| == 0 ==> r == AddOutcome(n, 0)
    ensures |key| > 0 ==> r.rc == (match Locate(n, key)
                                   case Some(m) => if m.terminal && !m.deleted then 0 else 1
                                   case None => 1)
    ensures IsPrefix(r.node.seg, n.seg)
    ensures |key| > 0 && |n.seg| > 0 && key[0] == n.seg[0] ==> |r.node.seg| > 0
    ensures |key| > 0 && |n.seg| == 0 ==> r.node == n.(children := r.node.children)
    decreases n
  {
    if |key| == 0 then AddOutcome(n, 0)
    else
      var l := CommonPrefixLength(key, n.seg);
      if l < |n.seg| then
        assert IsPrefix(n.seg[..l], n.seg);
        AddOutcome(SplitInsert(n, key, v), 1)
      else if l == |key| then
        // exact match: replace or merge the value and revive the node
        var stored := match cb case None => v case Some(f) => f(n.value, v);
        assert n.seg[..|n.seg|] == n.seg;
        AddOutcome(n.(value := Some(stored), terminal := true, deleted := false),
                   if n.terminal && !n.deleted then 0 else 1)
      else
        assert n.seg[..|n.seg|] == n.seg;
        match ChildIndex(n.children, key[l])
        case Some(i) =>
          var sub := AddAt(n.children[i], key[l..], v, cb);
          AddOutcome(n.(children := n.children[i := sub.node]), sub.rc)
        case None =>
          AddOutcome(AddChild(n, key, l, |key|, v), 1)
  }

  /** The value Add stores for `key`: with a merge callback and an existing node
      for the key (live, tombstoned or merely internal), the callback's merge of
      that node's value with `v`; otherwise `v` itself. */
  function MergedValue<V>(n: Node<V>, key: Key, v: V, cb: Option<MergeFn<V>>): V {
    match Locate(n, key)
    case Some(m) => (match cb case Some(f) => f(m.value, v) case None => v)
    case None => v
  }

  /** The split branch of Add, as an equation. */
  lemma AddAtSplits<V>(n: Node<V>, key: Key, v: V, cb: Option<MergeFn<V>>)
    requires 0 < |key|
    requires CommonPrefixLength(key, n.seg) < |n.seg|
    ensures AddFits(n, key)
    ensures AddAt(n, key, v, cb).node == SplitInsert(n, key, v)
  {
  }

  /** The exact-match branch of Add, as an equation: the node takes the merged
      value and becomes a live entry. */
  lemma AddAtReplaces<V>(n: Node<V>, key: Key, v: V, cb: Option<MergeFn<V>>)
    requires 0 < |key|
    requires CommonPrefixLength(key, n.seg) == |n.seg| == |key|
    ensures AddFits(n, key)
    ensures AddAt(n, key, v, cb).node ==
      n.(value := Some(MergedValue(n, key, v, cb)), terminal := true, deleted := false)
  {
    assert key == n.seg by { CommonPrefixFull(key, n.seg); }
  }

  /** The descent branch of Add, as an equation: the matching child is rebuilt
      in its slot. */
  lemma AddAtDescends<V>(n: Node<V>, key: Key, v: V, cb: Option<MergeFn<V>>, i: nat)
    requires AddFits(n, key)
    requires CommonPrefixLength(key, n.seg) == |n.seg| < |key|
    requires ChildIndex(n.children, key[|n.seg|]) == Some(i)
    ensures AddFits(n.children[i], key[|n.seg|..])
    ensures AddAt(n, key, v, cb).node ==
      n.(children := n.children[i := AddAt(n.children[i], key[|n.seg|..], v, cb).node])
  {
  }

  /** The append branch of Add, as an equation: a new leaf takes the rest of
      the key. */
  lemma AddAtAppends<V>(n: Node<V>, key: Key, v: V, cb: Option<MergeFn<V>>)
    requires AddFits(n, key)
    requires CommonPrefixLength(key, n.seg) == |n.seg| < |key|
    requires ChildIndex(n.children, key[|n.seg|]).None?
    ensures |n.children| < MAX_CHILDREN
    ensures AddAt(n, key, v, cb).node == AddChild(n, key, |n.seg|, |key|, v)
  {
  }

  /** The rebuilt child keeps its first byte, so it stays in its place in the
      radix order. */
  lemma AddAtKeepsFirstByte<V>(c: Node<V>, key: Key, v: V, cb: Option<MergeFn<V>>)
    requires AddFits(c, key)
    requires 0 < |key| && key[0] == FirstByte(c)
    ensures FirstByte(AddAt(c, key, v, cb).node) == FirstByte(c)
  {
    var r := AddAt(c, key, v, cb).node;
    PrefixFacts(r.seg, c.seg, c.seg);
    if |r.seg| > 0 {
      assert c.seg[..|r.seg|][0] == c.seg[0];
    }
  }

  // ---- Lookup ----

  /** A new leaf appended for the rest of `key` adds exactly `key`. */
  lemma AppendLeafLookup<V>(n: Node<V>, key: Key, v: V, k: Key)
    requires |n.seg| < |key| && IsPrefix(n.seg, key)
    requires ChildIndex(n.children, key[|n.seg|]).None?
    requires |n.children| < MAX_CHILDREN
    ensures Lookup(AddChild(n, key, |n.seg|, |key|, v), k) == if k == key then Some(v) else Lookup(n, k)
  {
    var l := |n.seg|;
    var leaf := Node(key[l..], [], Some(v), true, false);
    assert key[l..|key|] == key[l..];
    assert AddChild(n, key, l, |key|, v) == n.(children := n.children + [leaf]);
    assert FirstByte(leaf) == key[l];
    LookupAppendChild(n, leaf, k);
    if |n.seg| < |k| && IsPrefix(n.seg, k) && k[l] == key[l] {
      LookupLeaf(key[l..], v, k[l..]);
      SameTail(n.seg, k, key);
      LookupCases(n, k);
    }
  }

  /** The split branch of Add stores `v` at `key` and changes nothing else: the
      split itself changes no lookup, and then either the split parent takes
      the value or a new leaf takes the rest of the key. */
  lemma SplitInsertLookup<V>(n: Node<V>, key: Key, v: V, k: Key)
    requires 0 < |key|
    requires CommonPrefixLength(key, n.seg) < |n.seg|
    ensures Lookup(SplitInsert(n, key, v), k) == if k == key then Some(v) else Lookup(n, k)
  {
    var l := CommonPrefixLength(key, n.seg);
    var p := Split(n, l);
    SplitPreservesLookup(n, l, k);
    assert p.seg == key[..l];
    if l == |key| {
      assert key[..l] == key;
      LookupOwnFields(p, Some(v), true, false, k);
    } else {
      assert FirstByte(p.children[0]) == n.seg[l] != key[l];
      PrefixFacts(p.seg, key, key);
      AppendLeafLookup(p, key, v, k);
    }
  }

  /** The exact-match branch of Add stores the merged value in the key's own node. */
  lemma ReviveLookup<V>(n: Node<V>, key: Key, w: V, k: Key)
    requires key == n.seg
    ensures Lookup(n.(value := Some(w), terminal := true, deleted := false), k) ==
      if k == key then Some(w) else Lookup(n, k)
  {
    LookupOwnFields(n, Some(w), true, false, k);
  }

  /** The descent branch of Add: when the rebuilt child stores the merged value
      at the rest of the key and changes nothing else, so does the parent. */
  lemma DescendAddLookup<V>(n: Node<V>, key: Key, v: V, cb: Option<MergeFn<V>>, i: nat, k: Key)
    requires AddFits(n, key)
    requires CommonPrefixLength(key, n.seg) == |n.seg| < |key|
    requires ChildIndex(n.children, key[|n.seg|]) == Some(i)
    requires AddFits(n.children[i], key[|n.seg|..])
    requires forall x :: Lookup(AddAt(n.children[i], key[|n.seg|..], v, cb).node, x) ==
                         if x == key[|n.seg|..] then Some(MergedValue(n.children[i], key[|n.seg|..], v, cb))
                         else Lookup(n.children[i], x)
    ensures Lookup(AddAt(n, key, v, cb).node, k) ==
      if k == key then Some(MergedValue(n, key, v, cb)) else Lookup(n, k)
  {
    AddAtDescends(n, key, v, cb, i);
    var child := n.children[i];
    var c := AddAt(child, key[|n.seg|..], v, cb).node;
    AddAtKeepsFirstByte(child, key[|n.seg|..], v, cb);
    assert IsPrefix(n.seg, key) by { assert n.seg[..|n.seg|] == n.seg; }
    assert MergedValue(child, key[|n.seg|..], v, cb) == MergedValue(n, key, v, cb);
    ReplaceChildUpdatesOneKey(n, i, c, key, Some(MergedValue(n, key, v, cb)), k);
  }

  /** Where Add does not descend, it stores the merged value at `key` and
      changes nothing else: the split, the exact match and the appended leaf. */
  lemma StayAddLookup<V>(n: Node<V>, key: Key, v: V, cb: Option<MergeFn<V>>, k: Key)
    requires |key| > 0
    requires AddFits(n, key)
    requires var l := CommonPrefixLength(key, n.seg);
      !(l == |n.seg| < |key| && ChildIndex(n.children, key[l]).Some?)
    ensures Lookup(AddAt(n, key, v, cb).node, k) ==
      if k == key then Some(MergedValue(n, key, v, cb)) else Lookup(n, k)
  {
    var l := CommonPrefixLength(key, n.seg);
    if l < |n.seg| {
      AddAtSplits(n, key, v, cb);
      SplitInsertLookup(n, key, v, k);
    } else if l == |key| {
      AddAtReplaces(n, key, v, cb);
      ReviveLookup(n, key, MergedValue(n, key, v, cb), k);
    } else {
      AddAtAppends(n, key, v, cb);
      assert IsPrefix(n.seg, key) by { assert n.seg[..|n.seg|] == n.seg; }
      AppendLeafLookup(n, key, v, k);
    }
  }

  /** Add stores the merged value at `key` and changes what no other key finds. */
  lemma {:induction false} AddAtLookup<V>(n: Node<V>, key: Key, v: V, cb: Option<MergeFn<V>>, k: Key)
    requires |key| > 0
    requires AddFits(n, key)
    ensures Lookup(AddAt(n, key, v, cb).node, k) ==
      if k == key then Some(MergedValue(n, key, v, cb)) else Lookup(n, k)
    decreases n
  {
    var l := CommonPrefixLength(key, n.seg);
    if l == |n.seg| < |key| && ChildIndex(n.children, key[l]).Some? {
      var i := ChildIndex(n.children, key[l]).value;
      AddAtDescends(n, key, v, cb, i);
      forall x
        ensures Lookup(AddAt(n.children[i], key[l..], v, cb).node, x) ==
                if x == key[l..] then Some(MergedValue(n.children[i], key[l..], v, cb))
                else Lookup(n.children[i], x)
      {
        AddAtLookup(n.children[i], key[l..], v, cb, x);
      }
      DescendAddLookup(n, key, v, cb, i, k);
    } else {
      StayAddLookup(n, key, v, cb, k);
    }
  }

  // ---- Structural invariant ----

  /** The split branch of Add keeps the node valid: the old node's rest and the
      new leaf differ at the divergence byte. */
  lemma SplitInsertValid<V>(n: Node<V>, key: Key, v: V, budget: nat, isRoot: bool)
    requires ValidNode(n, budget, isRoot)
    requires 0 < |key| <= budget
    requires isRoot || key[0] == n.seg[0]
    requires CommonPrefixLength(key, n.seg) < |n.seg|
    ensures ValidNode(SplitInsert(n, key, v), budget, isRoot)
  {
    var l := CommonPrefixLength(key, n.seg);
    SplitShape(n, l, budget, isRoot);
    var p := Split(n, l);
    if l < |key| {
      var r := AddChild(p, key, l, |key|, v);
      var leaf := r.children[1];
      assert FirstByte(p.children[0]) == n.seg[l] && FirstByte(leaf) == key[l];
      assert ValidNode(leaf, budget - l, false);
      assert r.children == [p.children[0], leaf];
    }
  }

  /** Appending a leaf for the rest of `key` keeps the node valid. */
  lemma AppendLeafValid<V>(n: Node<V>, key: Key, v: V, budget: nat, isRoot: bool)
    requires ValidNode(n, budget, isRoot)
    requires |n.seg| < |key| <= budget
    requires ChildIndex(n.children, key[|n.seg|]).None?
    requires |n.children| < MAX_CHILDREN
    ensures ValidNode(AddChild(n, key, |n.seg|, |key|, v), budget, isRoot)
  {
    var r := AddChild(n, key, |n.seg|, |key|, v);
    var leaf := r.children[|n.children|];
    assert ValidNode(leaf, budget - |n.seg|, false);
    assert forall j :: 0 <= j < |n.children| ==> r.children[j] == n.children[j];
  }

  /** The descent branch of Add keeps the node valid when the rebuilt child is
      valid. */
  lemma DescendAddValid<V>(n: Node<V>, key: Key, v: V, cb: Option<MergeFn<V>>, i: nat, budget: nat, isRoot: bool)
    requires ValidNode(n, budget, isRoot)
    requires AddFits(n, key)
    requires CommonPrefixLength(key, n.seg) == |n.seg| < |key|
    requires ChildIndex(n.children, key[|n.seg|]) == Some(i)
    requires AddFits(n.children[i], key[|n.seg|..])
    requires ValidNode(AddAt(n.children[i], key[|n.seg|..], v, cb).node, budget - |n.seg|, false)
    ensures ValidNode(AddAt(n, key, v, cb).node, budget, isRoot)
  {
    AddAtDescends(n, key, v, cb, i);
    AddAtKeepsFirstByte(n.children[i], key[|n.seg|..], v, cb);
    ReplaceChildValid(n, i, AddAt(n.children[i], key[|n.seg|..], v, cb).node, budget, isRoot);
  }

  /** The child Add descends into is valid, and the rest of the key starts
      with the child's first byte and fits the child's path budget. */
  lemma DescentPrecondition<V>(n: Node<V>, key: Key, budget: nat, isRoot: bool, i: nat)
    requires ValidNode(n, budget, isRoot)
    requires CommonPrefixLength(key, n.seg) == |n.seg| < |key|
    requires ChildIndex(n.children, key[|n.seg|]) == Some(i)
    ensures AddFits(n, key) ==> AddFits(n.children[i], key[|n.seg|..])
    ensures ValidNode(n.children[i], budget - |n.seg|, false)
    ensures 0 < |key[|n.seg|..]|
    ensures |key| <= budget ==> |key[|n.seg|..]| <= budget - |n.seg|
    ensures key[|n.seg|..][0] == n.children[i].seg[0]
  {
    ChildValid(n, budget, isRoot, i);
  }

  /** Where Add does not descend, it keeps the node valid: the split, the
      exact match and the appended leaf. */
  lemma StayAddValid<V>(n: Node<V>, key: Key, v: V, cb: Option<MergeFn<V>>, budget: nat, isRoot: bool)
    requires ValidNode(n, budget, isRoot)
    requires 0 < |key| <= budget
    requires isRoot || key[0] == n.seg[0]
    requires AddFits(n, key)
    requires var l := CommonPrefixLength(key, n.seg);
      !(l == |n.seg| < |key| && ChildIndex(n.children, key[l]).Some?)
    ensures ValidNode(AddAt(n, key, v, cb).node, budget, isRoot)
  {
    var l := CommonPrefixLength(key, n.seg);
    if l < |n.seg| {
      AddAtSplits(n, key, v, cb);
      SplitInsertValid(n, key, v, budget, isRoot);
    } else if l == |key| {
      AddAtReplaces(n, key, v, cb);
    } else {
      AddAtAppends(n, key, v, cb);
      AppendLeafValid(n, key, v, budget, isRoot);
    }
  }

  /** Add keeps the structural invariant: the radix invariant (a new leaf takes
      a first byte no sibling has; the two children of a split differ at the
      divergence byte), non-empty segments below the root, the path budget and
      the child-count bound. */
  lemma {:induction false} AddAtValid<V>(n: Node<V>, key: Key, v: V, cb: Option<MergeFn<V>>, budget: nat, isRoot: bool)
    requires ValidNode(n, budget, isRoot)
    requires 0 < |key| <= budget
    requires isRoot || key[0] == n.seg[0]
    requires AddFits(n, key)
    ensures ValidNode(AddAt(n, key, v, cb).node, budget, isRoot)
    decreases n
  {
    var l := CommonPrefixLength(key, n.seg);
    if l == |n.seg| < |key| && ChildIndex(n.children, key[l]).Some? {
      var i := ChildIndex(n.children, key[l]).value;
      DescentPrecondition(n, key, budget, isRoot, i);
      AddAtValid(n.children[i], key[l..], v, cb, budget - |n.seg|, false);
      DescendAddValid(n, key, v, cb, i, budget, isRoot);
    } else {
      StayAddValid(n, key, v, cb, budget, isRoot);
    }
  }

  // ---- Compaction ----

  /** The split branch of Add leaves a tidy parent (a live entry, or a branching
      point with the new leaf) above the old node's unchanged shape. */
  lemma SplitInsertCompacted<V>(n: Node<V>, key: Key, v: V)
    requires Compacted(n) && NodeTidy(n)
    requires 0 < |key|
    requires CommonPrefixLength(key, n.seg) < |n.seg|
    ensures NodeTidy(SplitInsert(n, key, v)) && Compacted(SplitInsert(n, key, v))
  {
    var l := CommonPrefixLength(key, n.seg);
    var p := Split(n, l);
    assert p.children[0] == n.(seg := n.seg[l..]);
    if l < |key| {
      var r := AddChild(p, key, l, |key|, v);
      assert r.children == [p.children[0], r.children[1]];
    }
  }

  /** A new leaf is tidy, and adding a child keeps a tidy node tidy. */
  lemma AppendLeafCompacted<V>(n: Node<V>, key: Key, v: V)
    requires Compacted(n)
    requires |n.seg| < |key|
    requires |n.children| < MAX_CHILDREN
    ensures Compacted(AddChild(n, key, |n.seg|, |key|, v))
    ensures NodeTidy(n) ==> NodeTidy(AddChild(n, key, |n.seg|, |key|, v))
  {
    var r := AddChild(n, key, |n.seg|, |key|, v);
    assert forall j :: 0 <= j < |n.children| ==> r.children[j] == n.children[j];
  }

  /** The descent branch of Add keeps the node compacted when the rebuilt child
      is tidy and compacted. */
  lemma DescendAddCompacted<V>(n: Node<V>, key: Key, v: V, cb: Option<MergeFn<V>>, i: nat)
    requires Compacted(n)
    requires AddFits(n, key)
    requires CommonPrefixLength(key, n.seg) == |n.seg| < |key|
    requires ChildIndex(n.children, key[|n.seg|]) == Some(i)
    requires AddFits(n.children[i], key[|n.seg|..])
    requires var c := AddAt(n.children[i], key[|n.seg|..], v, cb).node; Compacted(c) && NodeTidy(c)
    ensures Compacted(AddAt(n, key, v, cb).node)
    ensures NodeTidy(n) ==> NodeTidy(AddAt(n, key, v, cb).node)
  {
    AddAtDescends(n, key, v, cb, i);
    ReplaceChildCompacted(n, i, AddAt(n.children[i], key[|n.seg|..], v, cb).node);
  }

  /** Where Add does not descend, it keeps the node compacted, and tidy if it
      was. */
  lemma StayAddCompacted<V>(n: Node<V>, key: Key, v: V, cb: Option<MergeFn<V>>)
    requires Compacted(n)
    requires |n.seg| > 0 ==> NodeTidy(n)
    requires |key| > 0
    requires AddFits(n, key)
    requires var l := CommonPrefixLength(key, n.seg);
      !(l == |n.seg| < |key| && ChildIndex(n.children, key[l]).Some?)
    ensures Compacted(AddAt(n, key, v, cb).node)
    ensures |n.seg| > 0 ==> NodeTidy(AddAt(n, key, v, cb).node)
  {
    var l := CommonPrefixLength(key, n.seg);
    if l < |n.seg| {
      AddAtSplits(n, key, v, cb);
      SplitInsertCompacted(n, key, v);
    } else if l == |key| {
      AddAtReplaces(n, key, v, cb);
    } else {
      AddAtAppends(n, key, v, cb);
      AppendLeafCompacted(n, key, v);
    }
  }

  /** Add keeps the trie compacted: every node it creates is a live entry or a
      branching point, and the node it descends through keeps its shape. */
  lemma {:induction false} AddAtCompacted<V>(n: Node<V>, key: Key, v: V, cb: Option<MergeFn<V>>, budget: nat, isRoot: bool)
    requires ValidNode(n, budget, isRoot)
    requires Compacted(n)
    requires |n.seg| > 0 ==> NodeTidy(n)
    requires |key| > 0
    requires AddFits(n, key)
    ensures Compacted(AddAt(n, key, v, cb).node)
    ensures |n.seg| > 0 ==> NodeTidy(AddAt(n, key, v, cb).node)
    decreases n
  {
    var l := CommonPrefixLength(key, n.seg);
    if l == |n.seg| < |key| && ChildIndex(n.children, key[l]).Some? {
      var i := ChildIndex(n.children, key[l]).value;
      ChildValid(n, budget, isRoot, i);
      AddAtCompacted(n.children[i], key[l..], v, cb, budget - |n.seg|, false);
      DescendAddCompacted(n, key, v, cb, i);
    } else {
      StayAddCompacted(n, key, v, cb);
    }
  }

  /** Under the invariant, the value slot of the key's node is what lookup
      reports, so a merge callback sees exactly the stored value (absent for a
      tombstone or an internal node). */
  lemma {:induction false} LocatedValueIsLookup<V>(n: Node<V>, budget: nat, isRoot: bool, key: Key)
    requires ValidNode(n, budget, isRoot)
    requires Locate(n, key).Some?
    ensures Locate(n, key).value.value == Lookup(n, key)
    ensures Locate(n, key).value.terminal && !Locate(n, key).value.deleted <==> Lookup(n, key).Some?
    decreases n
  {
    var l := CommonPrefixLength(key, n.seg);
    if l == |key| {
    } else {
      match ChildIndex(n.children, key[l])
      case Some(i) =>
        LocatedValueIsLookup(n.children[i], budget - |n.seg|, false, key[l..]);
      case None =>
    }
  }

  /** `TrieMapNode_Add` on a whole trie. */
  function Add<V>(t: Node<V>, key: Key, v: V, cb: Option<MergeFn<V>>): (r: AddOutcome<V>)
    requires ValidTrie(t)
    requires |key| <= TM_MAX_STRING_LEN
    ensures ValidTrie(r.node)
    ensures |key| == 0 ==> r == AddOutcome(t, 0)
    ensures |key| > 0 ==> r.rc == (if key in Contents(t) then 0 else 1)
    ensures |key| > 0 ==> Contents(r.node) == Contents(t)[key :=
      if cb.Some? && HasNode(t, key) then cb.value(Get(Contents(t), key), v) else v]
  {
    ValidNodeAddFits(t, TM_MAX_STRING_LEN, true, key);
    var r := AddAt(t, key, v, cb);
    if |key| == 0 then r
    else
      AddKeepsTrieValid(t, key, v, cb);
      AddUpdatesOneKey(t, key, v, cb);
      r
  }

  /** The key already has a node of its own in the trie (a live entry, a
      tombstone, or an internal branching node). */
  predicate HasNode<V>(t: Node<V>, key: Key) {
    Locate(t, key).Some?
  }

  /** Add on a whole trie keeps every part of the trie invariant. */
  lemma AddKeepsTrieValid<V>(t: Node<V>, key: Key, v: V, cb: Option<MergeFn<V>>)
    requires ValidTrie(t)
    requires 0 < |key| <= TM_MAX_STRING_LEN
    ensures AddFits(t, key)
    ensures ValidTrie(AddAt(t, key, v, cb).node)
  {
    ValidNodeAddFits(t, TM_MAX_STRING_LEN, true, key);
    AddAtValid(t, key, v, cb, TM_MAX_STRING_LEN, true);
    AddAtCompacted(t, key, v, cb, TM_MAX_STRING_LEN, true);
  }

  /** Add updates exactly one key of the abstract map, and its return code says
      whether that key was stored before. */
  lemma AddUpdatesOneKey<V>(t: Node<V>, key: Key, v: V, cb: Option<MergeFn<V>>)
    requires ValidTrie(t)
    requires 0 < |key| <= TM_MAX_STRING_LEN
    ensures AddFits(t, key)
    ensures AddAt(t, key, v, cb).rc == (if key in Contents(t) then 0 else 1)
    ensures Contents(AddAt(t, key, v, cb).node) == Contents(t)[key :=
      if cb.Some? && HasNode(t, key) then cb.value(Get(Contents(t), key), v) else v]
  {
    AddKeepsTrieValid(t, key, v, cb);
    var r := AddAt(t, key, v, cb);
    var stored := if cb.Some? && HasNode(t, key) then cb.value(Get(Contents(t), key), v) else v;
    LookupAgreesWithContents(t, TM_MAX_STRING_LEN, true, key);
    if HasNode(t, key) {
      LocatedValueIsLookup(t, TM_MAX_STRING_LEN, true, key);
    }
    assert MergedValue(t, key, v, cb) == stored;
    var m := Contents(t)[key := stored];
    forall k
      ensures Get(Contents(r.node), k) == Get(m, k)
    {
      AddAtLookup(t, key, v, cb, k);
      LookupAgreesWithContents(t, TM_MAX_STRING_LEN, true, k);
      LookupAgreesWithContents(r.node, TM_MAX_STRING_LEN, true, k);
    }
    MapsAgreeingEverywhere(Contents(r.node), m);
  }

  /** Without a callback, Find returns the inserted value right after Add. */
  lemma InsertThenFind<V>(t: Node<V>, key: Key, v: V)
    requires ValidTrie(t)
    requires 0 < |key| <= TM_MAX_STRING_LEN
    ensures Find(Add(t, key, v, None).node, key) == Some(v)
  {
    FindAgreesWithContents(Add(t, key, v, None).node, key);
  }
}
