/** Deletion (`TrieMapNode_Delete` and `__trieMapNode_optimizeChildren`,
    triemap.c): the key's node is turned into a tombstone, then every node on
    the descent path, deepest first, compacts its child list. */
module TrieDelete {
  import opened Wrappers
  import opened TrieNode
  import opened TrieLookup
  import opened TrieContents

  /** The trie after the deletion and the return code: 1 when a node for the key
      existed and was not already a tombstone, otherwise 0. */
  datatype DeleteOutcome<V> = DeleteOutcome(node: Node<V>, rc: int)

  /** One pass of `__trieMapNode_optimizeChildren` from index `i` on: the first
      childless tombstone met is removed (the following children shift down and
      the pass ends there); before that, every child with exactly one child is
      offered to `__trieMapNode_MergeWithSingleChild`. */
  function OptimizeFrom<V>(cs: seq<Node<V>>, i: nat): (r: seq<Node<V>>)
    requires i <= |cs|
    ensures |cs| - 1 <= |r| <= |cs|
    decreases |cs| - i
  {
    if i == |cs| then cs
    else if cs[i].deleted && cs[i].children == [] then cs[..i] + cs[i + 1..]
    else OptimizeFrom(if |cs[i].children| == 1 then cs[i := MergeWithSingleChild(cs[i])] else cs, i + 1)
  }

  /** `__trieMapNode_optimizeChildren`: only the child list changes. */
  function OptimizeChildren<V>(n: Node<V>): (r: Node<V>)
    ensures r == n.(children := r.children)
  {
    n.(children := OptimizeFrom(n.children, 0))
  }

  /** `TrieMapNode_Delete` on the subtree `n` with the unconsumed, non-empty part
      `key` of the key. The node is visited (pushed on the C stack) because the
      key is not used up; it is optimized after everything below it. */
  function DeleteAt<V>(n: Node<V>, key: Key): (r: DeleteOutcome<V>)
    requires |key| > 0
    ensures r.rc == match Locate(n, key)
                    case Some(m) => (if m.deleted then 0 else 1)
                    case None => 0
    ensures r.node.seg == n.seg
    ensures r.node.terminal ==> n.terminal
    ensures |n.children| - 1 <= |r.node.children| <= |n.children|
    decreases n
  {
    var l := CommonPrefixLength(key, n.seg);
    if l == |key| && l == |n.seg| then
      if n.deleted then DeleteOutcome(OptimizeChildren(n), 0)
      else DeleteOutcome(OptimizeChildren(n.(value := None, terminal := false, deleted := true)), 1)
    else if l < |key| && l == |n.seg| then
      match ChildIndex(n.children, key[l])
      case Some(i) =>
        var sub := DeleteAt(n.children[i], key[l..]);
        DeleteOutcome(OptimizeChildren(n.(children := n.children[i := sub.node])), sub.rc)
      case None => DeleteOutcome(OptimizeChildren(n), 0)
    else DeleteOutcome(OptimizeChildren(n), 0)
  }

  /** `TrieMapNode_Delete` on a whole trie; an empty key visits no node. */
  function Delete<V>(t: Node<V>, key: Key): (r: DeleteOutcome<V>)
    requires ValidTrie(t)
    ensures ValidTrie(r.node)
    ensures Contents(r.node) == Contents(t) - {key}
    ensures r.rc == 1 <==> HasLiveNode(t, key)
    ensures r.rc == 0 || r.rc == 1
    ensures key in Contents(t) ==> r.rc == 1
    ensures |key| == 0 ==> r == DeleteOutcome(t, 0)
  {
    if |key| == 0 then
      EmptyKeyNeverStored(t);
      DeleteOutcome(t, 0)
    else
      DeleteKeepsTrieValid(t, key);
      DeleteRemovesOneKey(t, key);
      DeleteAt(t, key)
  }

  /** The key has a node of its own that is not a tombstone: a live entry, or
      an internal node that Delete will still mark. */
  predicate HasLiveNode<V>(t: Node<V>, key: Key) {
    |key| > 0 && Locate(t, key).Some? && !Locate(t, key).value.deleted
  }

  /** Each step of the optimization pass keeps the node valid. */
  lemma {:induction false} OptimizeFromValid<V>(n: Node<V>, i: nat, budget: nat, isRoot: bool)
    requires ValidNode(n, budget, isRoot)
    requires i <= |n.children|
    ensures ValidNode(n.(children := OptimizeFrom(n.children, i)), budget, isRoot)
    decreases |n.children| - i
  {
    var cs := n.children;
    if i == |cs| {
      assert n.(children := cs) == n;
    } else if cs[i].deleted && cs[i].children == [] {
      RemoveChildValid(n, i, budget, isRoot);
    } else if |cs[i].children| == 1 {
      var m := MergeWithSingleChild(cs[i]);
      MergeValid(cs[i], budget - |n.seg|);
      ReplaceChildValid(n, i, m, budget, isRoot);
      var n2 := n.(children := cs[i := m]);
      OptimizeFromValid(n2, i + 1, budget, isRoot);
    } else {
      OptimizeFromValid(n, i + 1, budget, isRoot);
    }
  }

  /** Merging one child with its only child keeps the node valid and keeps
      every lookup. */
  lemma MergeStepLookup<V>(n: Node<V>, i: nat, budget: nat, isRoot: bool, k: Key)
    requires ValidNode(n, budget, isRoot)
    requires i < |n.children| && |n.children[i].children| == 1
    ensures var n2 := n.(children := n.children[i := MergeWithSingleChild(n.children[i])]);
      ValidNode(n2, budget, isRoot) && Lookup(n2, k) == Lookup(n, k)
  {
    var c := n.children[i];
    var m := MergeWithSingleChild(c);
    MergeValid(c, budget - |n.seg|);
    ReplaceChildValid(n, i, m, budget, isRoot);
    LookupReplaceChild(n, i, m, k);
    if RoutesTo(n, k, i) {
      LookupThroughChild(n, k, i);
      MergePreservesLookup(c, budget - |n.seg|, k[|n.seg|..]);
    }
  }

  /** Compaction never changes what a key finds: a removed child is a childless
      tombstone and a merge keeps every lookup. */
  lemma {:induction false} OptimizeFromLookup<V>(n: Node<V>, i: nat, budget: nat, isRoot: bool, k: Key)
    requires ValidNode(n, budget, isRoot)
    requires i <= |n.children|
    ensures Lookup(n.(children := OptimizeFrom(n.children, i)), k) == Lookup(n, k)
    decreases |n.children| - i
  {
    var cs := n.children;
    if i == |cs| {
      assert n.(children := cs) == n;
    } else if cs[i].deleted && cs[i].children == [] {
      RemoveDeadChildPreservesLookup(n, i, k);
    } else if |cs[i].children| == 1 {
      var n2 := n.(children := cs[i := MergeWithSingleChild(cs[i])]);
      MergeStepLookup(n, i, budget, isRoot, k);
      OptimizeFromLookup(n2, i + 1, budget, isRoot, k);
    } else {
      OptimizeFromLookup(n, i + 1, budget, isRoot, k);
    }
  }

  /** A child that the parent's optimization pass can make tidy: already tidy,
      a childless tombstone (removed), or a non-entry with a single child
      (merged with it). */
  predicate Fixable<V>(c: Node<V>) {
    NodeTidy(c) || (c.deleted && c.children == []) || (!c.terminal && |c.children| == 1)
  }

  /** A pass over a list of tidy children changes nothing. */
  lemma {:induction false} OptimizeFromTidyIdentity<V>(cs: seq<Node<V>>, i: nat)
    requires i <= |cs|
    requires forall x :: i <= x < |cs| ==> NodeTidy(cs[x]) && !(cs[x].terminal && cs[x].deleted)
    ensures OptimizeFrom(cs, i) == cs
    decreases |cs| - i
  {
    if i < |cs| {
      assert cs[i := MergeWithSingleChild(cs[i])] == cs;
      OptimizeFromTidyIdentity(cs, i + 1);
    }
  }

  /** A pass over a compacted child list with at most one fixable, untidy child
      leaves every child tidy and compacted. */
  lemma {:induction false} OptimizeFromCompacts<V>(cs: seq<Node<V>>, i: nat)
    requires i <= |cs|
    requires forall x :: 0 <= x < i ==> NodeTidy(cs[x]) && Compacted(cs[x])
    requires forall x :: i <= x < |cs| ==> Fixable(cs[x]) && Compacted(cs[x]) && !(cs[x].terminal && cs[x].deleted)
    requires forall x, y :: i <= x < y < |cs| ==> NodeTidy(cs[x]) || NodeTidy(cs[y])
    ensures forall x :: 0 <= x < |OptimizeFrom(cs, i)| ==> NodeTidy(OptimizeFrom(cs, i)[x]) && Compacted(OptimizeFrom(cs, i)[x])
    decreases |cs| - i
  {
    if i == |cs| {
    } else if cs[i].deleted && cs[i].children == [] {
      var r := cs[..i] + cs[i + 1..];
      assert forall x :: 0 <= x < |r| ==> r[x] == cs[if x < i then x else x + 1];
    } else if |cs[i].children| == 1 {
      var c := cs[i];
      var m := MergeWithSingleChild(c);
      if !c.terminal {
        var g := c.children[0];
        assert m == g.(seg := c.seg + g.seg);
        assert NodeTidy(g) && Compacted(g);
        assert m.children == g.children;
      }
      assert NodeTidy(m) && Compacted(m);
      var cs' := cs[i := m];
      OptimizeFromCompacts(cs', i + 1);
    } else {
      OptimizeFromCompacts(cs, i + 1);
    }
  }

  /** Deletion keeps the structural invariant. */
  lemma {:induction false} DeleteAtValid<V>(n: Node<V>, key: Key, budget: nat, isRoot: bool)
    requires ValidNode(n, budget, isRoot)
    requires |key| > 0
    ensures ValidNode(DeleteAt(n, key).node, budget, isRoot)
    decreases n
  {
    var l := CommonPrefixLength(key, n.seg);
    if l == |key| && l == |n.seg| {
      if n.deleted {
        OptimizeFromValid(n, 0, budget, isRoot);
      } else {
        OptimizeFromValid(n.(value := None, terminal := false, deleted := true), 0, budget, isRoot);
      }
    } else if l < |key| && l == |n.seg| {
      match ChildIndex(n.children, key[l])
      case Some(i) =>
        var child := n.children[i];
        var sub := DeleteAt(child, key[l..]);
        DeleteAtValid(child, key[l..], budget - |n.seg|, false);
        ReplaceChildValid(n, i, sub.node, budget, isRoot);
        OptimizeFromValid(n.(children := n.children[i := sub.node]), 0, budget, isRoot);
      case None =>
        OptimizeFromValid(n, 0, budget, isRoot);
    } else {
      OptimizeFromValid(n, 0, budget, isRoot);
    }
  }

  /** The branch of Delete that reaches the key's own node, as an equation:
      the node is marked (unless it already is a tombstone) and optimized. */
  lemma DeleteAtMarks<V>(n: Node<V>, key: Key)
    requires |key| > 0
    requires CommonPrefixLength(key, n.seg) == |key| == |n.seg|
    ensures key == n.seg
    ensures DeleteAt(n, key).node ==
      OptimizeChildren(if n.deleted then n else n.(value := None, terminal := false, deleted := true))
  {
    CommonPrefixFull(key, n.seg);
  }

  /** The branch of Delete that descends, as an equation: the child is
      rebuilt in its slot, then the node is optimized. */
  lemma DeleteAtDescends<V>(n: Node<V>, key: Key, i: nat)
    requires CommonPrefixLength(key, n.seg) == |n.seg| < |key|
    requires ChildIndex(n.children, key[|n.seg|]) == Some(i)
    ensures IsPrefix(n.seg, key)
    ensures DeleteAt(n, key).node ==
      OptimizeChildren(n.(children := n.children[i := DeleteAt(n.children[i], key[|n.seg|..]).node]))
  {
    assert n.seg[..|n.seg|] == n.seg;
  }

  /** The branches of Delete where the key has no node: the node is only
      optimized, and the key finds nothing. */
  lemma DeleteAtMisses<V>(n: Node<V>, key: Key)
    requires |key| > 0
    requires var l := CommonPrefixLength(key, n.seg);
      !(l == |key| == |n.seg|) && !(l == |n.seg| < |key| && ChildIndex(n.children, key[l]).Some?)
    ensures DeleteAt(n, key).node == OptimizeChildren(n)
    ensures Lookup(n, key) == None
  {
    var l := CommonPrefixLength(key, n.seg);
    LookupCases(n, key);
    if IsPrefix(n.seg, key) {
      CommonPrefixLengthUnique(key, n.seg, |n.seg|);
    }
  }

  /** Marking the key's own node and optimizing makes the key unfindable and
      changes nothing else. */
  lemma MarkLookup<V>(n: Node<V>, key: Key, budget: nat, isRoot: bool, k: Key)
    requires ValidNode(n, budget, isRoot)
    requires |key| > 0
    requires CommonPrefixLength(key, n.seg) == |key| == |n.seg|
    ensures Lookup(DeleteAt(n, key).node, k) == if k == key then None else Lookup(n, k)
  {
    DeleteAtMarks(n, key);
    if n.deleted {
      LookupCases(n, k);
      OptimizeFromLookup(n, 0, budget, isRoot, k);
    } else {
      var m := n.(value := None, terminal := false, deleted := true);
      LookupOwnFields(n, None, false, true, k);
      OptimizeFromLookup(m, 0, budget, isRoot, k);
    }
  }

  /** The descent branch of Delete: when the rebuilt child loses exactly the
      rest of the key, the node loses exactly the key. */
  lemma DescendDeleteLookup<V>(n: Node<V>, key: Key, budget: nat, isRoot: bool, i: nat, k: Key)
    requires ValidNode(n, budget, isRoot)
    requires CommonPrefixLength(key, n.seg) == |n.seg| < |key|
    requires ChildIndex(n.children, key[|n.seg|]) == Some(i)
    requires ValidNode(DeleteAt(n.children[i], key[|n.seg|..]).node, budget - |n.seg|, false)
    requires forall x :: Lookup(DeleteAt(n.children[i], key[|n.seg|..]).node, x) ==
                         if x == key[|n.seg|..] then None else Lookup(n.children[i], x)
    ensures Lookup(DeleteAt(n, key).node, k) == if k == key then None else Lookup(n, k)
  {
    DeleteAtDescends(n, key, i);
    var c := DeleteAt(n.children[i], key[|n.seg|..]).node;
    ReplaceChildUpdatesOneKey(n, i, c, key, None, k);
    ReplaceChildValid(n, i, c, budget, isRoot);
    OptimizeFromLookup(n.(children := n.children[i := c]), 0, budget, isRoot, k);
  }

  /** Deletion makes `key` unfindable and changes what no other key finds. */
  lemma {:induction false} DeleteAtLookup<V>(n: Node<V>, key: Key, budget: nat, isRoot: bool, k: Key)
    requires ValidNode(n, budget, isRoot)
    requires |key| > 0
    ensures Lookup(DeleteAt(n, key).node, k) == if k == key then None else Lookup(n, k)
    decreases n
  {
    var l := CommonPrefixLength(key, n.seg);
    if l == |key| && l == |n.seg| {
      MarkLookup(n, key, budget, isRoot, k);
    } else if l < |key| && l == |n.seg| && ChildIndex(n.children, key[l]).Some? {
      var i := ChildIndex(n.children, key[l]).value;
      ChildValid(n, budget, isRoot, i);
      DeleteAtValid(n.children[i], key[l..], budget - |n.seg|, false);
      forall x
        ensures Lookup(DeleteAt(n.children[i], key[l..]).node, x) ==
                if x == key[l..] then None else Lookup(n.children[i], x)
      {
        DeleteAtLookup(n.children[i], key[l..], budget - |n.seg|, false, x);
      }
      DescendDeleteLookup(n, key, budget, isRoot, i, k);
    } else {
      DeleteAtMisses(n, key);
      OptimizeFromLookup(n, 0, budget, isRoot, k);
    }
  }

  /** The optimization pass leaves a compacted node whose children are all
      consistent (none both a live entry and a tombstone) as it is. */
  lemma OptimizeCompactedIdentity<V>(m: Node<V>)
    requires Compacted(m)
    requires forall x :: 0 <= x < |m.children| ==> !(m.children[x].terminal && m.children[x].deleted)
    ensures OptimizeChildren(m) == m
  {
    OptimizeFromTidyIdentity(m.children, 0);
  }

  /** No child of a valid node is both a live entry and a tombstone. */
  lemma ChildrenConsistent<V>(n: Node<V>, budget: nat, isRoot: bool)
    requires ValidNode(n, budget, isRoot)
    ensures forall x :: 0 <= x < |n.children| ==> !(n.children[x].terminal && n.children[x].deleted)
  {
    assert forall x :: 0 <= x < |n.children| ==> ValidNode(n.children[x], budget - |n.seg|, false);
  }

  /** Where Delete does not descend, the optimization pass finds only tidy
      children and changes nothing; a marked node is left fixable. */
  lemma StayCompacted<V>(n: Node<V>, key: Key, budget: nat, isRoot: bool)
    requires ValidNode(n, budget, isRoot)
    requires Compacted(n)
    requires |key| > 0
    requires var l := CommonPrefixLength(key, n.seg);
      !(l == |n.seg| < |key| && ChildIndex(n.children, key[l]).Some?)
    ensures Compacted(DeleteAt(n, key).node)
    ensures NodeTidy(n) ==> Fixable(DeleteAt(n, key).node)
  {
    var l := CommonPrefixLength(key, n.seg);
    ChildrenConsistent(n, budget, isRoot);
    if l == |key| == |n.seg| {
      DeleteAtMarks(n, key);
      var m := if n.deleted then n else n.(value := None, terminal := false, deleted := true);
      assert m.children == n.children;
      OptimizeCompactedIdentity(m);
    } else {
      DeleteAtMisses(n, key);
      OptimizeCompactedIdentity(n);
    }
  }

  /** The descent branch of Delete keeps the node compacted when the rebuilt
      child is compacted and fixable: the pass repairs that one child. */
  lemma DescendDeleteCompacted<V>(n: Node<V>, key: Key, budget: nat, isRoot: bool, i: nat)
    requires ValidNode(n, budget, isRoot)
    requires Compacted(n)
    requires CommonPrefixLength(key, n.seg) == |n.seg| < |key|
    requires ChildIndex(n.children, key[|n.seg|]) == Some(i)
    requires var c := DeleteAt(n.children[i], key[|n.seg|..]).node;
      ValidNode(c, budget - |n.seg|, false) && Compacted(c) && Fixable(c)
    ensures Compacted(DeleteAt(n, key).node)
    ensures NodeTidy(n) ==> Fixable(DeleteAt(n, key).node)
  {
    DeleteAtDescends(n, key, i);
    var cs := n.children;
    var cs' := cs[i := DeleteAt(cs[i], key[|n.seg|..]).node];
    assert forall x :: 0 <= x < |cs'| && x != i ==> cs'[x] == cs[x];
    OptimizeFromCompacts(cs', 0);
  }

  /** Deletion keeps the subtree compacted, and leaves a tidy node in a state
      its parent's optimization pass repairs. */
  lemma {:induction false} DeleteAtCompacted<V>(n: Node<V>, key: Key, budget: nat, isRoot: bool)
    requires ValidNode(n, budget, isRoot)
    requires Compacted(n)
    requires |key| > 0
    ensures Compacted(DeleteAt(n, key).node)
    ensures NodeTidy(n) ==> Fixable(DeleteAt(n, key).node)
    decreases n
  {
    var l := CommonPrefixLength(key, n.seg);
    if l == |n.seg| < |key| && ChildIndex(n.children, key[l]).Some? {
      var i := ChildIndex(n.children, key[l]).value;
      ChildValid(n, budget, isRoot, i);
      DeleteAtCompacted(n.children[i], key[l..], budget - |n.seg|, false);
      DeleteAtValid(n.children[i], key[l..], budget - |n.seg|, false);
      DescendDeleteCompacted(n, key, budget, isRoot, i);
    } else {
      StayCompacted(n, key, budget, isRoot);
    }
  }

  /** Delete on a whole trie keeps every part of the trie invariant. */
  lemma DeleteKeepsTrieValid<V>(t: Node<V>, key: Key)
    requires ValidTrie(t)
    requires |key| > 0
    ensures ValidTrie(DeleteAt(t, key).node)
  {
    DeleteAtValid(t, key, TM_MAX_STRING_LEN, true);
    DeleteAtCompacted(t, key, TM_MAX_STRING_LEN, true);
    var l := CommonPrefixLength(key, t.seg);
    assert l < |key|;
  }

  /** Delete removes exactly `key` from the abstract map; its return code is 1
      for every stored key, and also for an internal node that was not yet a
      tombstone. */
  lemma DeleteRemovesOneKey<V>(t: Node<V>, key: Key)
    requires ValidTrie(t)
    requires |key| > 0
    ensures Contents(DeleteAt(t, key).node) == Contents(t) - {key}
    ensures key in Contents(t) ==> HasLiveNode(t, key)
  {
    var r := DeleteAt(t, key);
    DeleteKeepsTrieValid(t, key);
    var m := Contents(t) - {key};
    forall k
      ensures Get(Contents(r.node), k) == Get(m, k)
    {
      DeleteAtLookup(t, key, TM_MAX_STRING_LEN, true, k);
      LookupAgreesWithContents(t, TM_MAX_STRING_LEN, true, k);
      LookupAgreesWithContents(r.node, TM_MAX_STRING_LEN, true, k);
    }
    MapsAgreeingEverywhere(Contents(r.node), m);
    LookupAgreesWithContents(t, TM_MAX_STRING_LEN, true, key);
  }

  /** After Delete, Find no longer returns the key. */
  lemma DeleteThenFind<V>(t: Node<V>, key: Key)
    requires ValidTrie(t)
    ensures Find(Delete(t, key).node, key) == None
  {
    FindAgreesWithContents(Delete(t, key).node, key);
  }
}
