# TrieMap: a compressed radix trie, modelled in Dafny

This project models the TrieMap of `src/util/triemap.c` and `src/util/triemap.h`. It is a byte-keyed
compressed (radix) trie that maps keys of up to 65535 bytes to opaque values.

Each node holds the following:
- a segment of the key;
- up to one child per next byte, in insertion order;
- a value slot;
- two flag bits, `TM_NODE_TERMINAL` and `TM_NODE_DELETED`.

The operations work as follows:
- **Add** walks the longest common prefix. It then splits a node, replaces or merges a value through an optional callback, descends into the child chosen by the next byte, or appends a new leaf.
- **Find** descends the same way and ignores tombstones.
- **Delete** marks the key's node as a tombstone. Deepest first, every node on the path then compacts its child list: it drops a childless tombstone and merges a non-entry with its only child.
- **MemUsage** sums the per-node allocation sizes.
- **Free** releases every stored value.

Nodes are immutable values here. A C primitive that reallocates a node returns the new node, and the caller stores it where the old pointer was. The flag byte is kept as two booleans. The `Flags` module shows that every bit operation the C code performs on the byte updates exactly the intended boolean. The abstract meaning of a trie is `TrieContents.Contents`, the map from each stored key to its value. Find is proved to agree with it. Add and Delete are proved to change exactly one key of it, to preserve the radix invariant and to keep the trie compacted.

Modules, one per concern:
- `Wrappers` (wrappers.dfy): `Option` and map lookup.
- `Flags` (flags.dfy): the flag byte.
- `TrieNode` (node.dfy): the node, the allocation size and the node primitives, plus the structural invariant `ValidNode`, `Compacted` and `ValidTrie`.
- `TrieLookup` (lookup.dfy): Find, and how each primitive affects lookups.
- `TrieContents` (contents.dfy): the abstract map.
- `TrieAdd` (add.dfy), `TrieDelete` (delete.dfy), `TrieMemory` (memory.dfy): the operations.
- `DeleteStack` (delete_stack.dfy) and `ChildCounter` (child_counter.dfy): the two findings below.

## Model

| member | source | states |
|---|---|---|
| TrieNode.NewTrieMap | src/util/triemap.c:22-24 | the new map is a valid trie (empty root segment, not a live entry, no children) holding no value |
| TrieNode.NewNode | src/util/triemap.c:8-20 | a new node copies `str[offset..len]` as its segment (length `len - offset`), has no children, holds the given value and terminal flag, and is not deleted |
| TrieNode.AddChild | src/util/triemap.c:26-35 | the node gains exactly one child, appended after the unchanged old children; that child is a live leaf holding `str[offset..len]` and the value; nothing else about the node changes |
| TrieAdd.AppendLeafLookup | src/util/triemap.c:166-167 | appending a leaf for the rest of a key that no child claims adds exactly that key with its value and changes what no other key finds |
| TrieNode.SplitShape | src/util/triemap.c:37-57 | after a split the node keeps the segment prefix and becomes an empty, non-terminal, non-deleted parent of one child; that child is the old node with the segment suffix (old children, value and flags); both stay valid |
| TrieLookup.SplitPreservesLookup | src/util/triemap.c:37-57 | splitting a node at any offset inside its segment changes what no key finds |
| TrieLookup.MergePreservesLookup | src/util/triemap.c:61-85 | merging a non-terminal node with its only child (or leaving any other node alone) keeps its first byte and changes what no key finds |
| TrieNode.MergeValid | src/util/triemap.c:61-85 | the merged node is valid within the same path budget, so the concatenated segment still fits `tm_len_t` |
| TrieNode.RoomForNewChild | src/util/triemap.c:156-167 | pigeonhole: in a child list with distinct first bytes where the scan for a byte finds nothing, there are fewer than 256 children |
| TrieAdd.ValidNodeAddFits | src/util/triemap.c:156-167 | on a valid subtree, the node where Add appends a leaf always has room for one more child |
| Flags.FlagsAreDistinctBits | src/util/triemap.h:12-13 | the two flags share no bit; terminal is exactly bit 1 and deleted exactly bit 0 |
| Flags.MarkDeleted | src/util/triemap.c:264-268 | marking a tombstone sets deleted, clears terminal and keeps every other bit |
| Flags.ClearBoth | src/util/triemap.c:51 | the split parent has neither flag, and every other bit is kept |
| Flags.OperationsMatchBooleanView | src/util/triemap.c:146-149 | on flag bytes encoding a boolean pair, each bit operation of the source is exactly the intended update of the pair |
| TrieLookup.MatchSegment | src/util/triemap.c:176-180 | the byte loop stops after exactly the common prefix length of the remaining key and the segment |
| TrieLookup.ScanChildren | src/util/triemap.c:189-198 | the child loop returns the first child whose first byte is the next key byte, or the child count when there is none |
| TrieLookup.FindLoop | src/util/triemap.c:170-209 | the loop as written answers the same as the recursive descent `Find` for every key, including the empty key, a key ending inside a segment, a mismatch and a tombstone |
| TrieContents.LookupAgreesWithContents | src/util/triemap.c:170-209 | on a valid subtree, the descent finds a value for a key exactly when the abstract map holds that key, and then finds that value |
| TrieContents.FindAgreesWithContents | src/util/triemap.c:170-209 | Find on a valid trie returns the abstract map's value for every key, and NULL exactly when the key is not stored |
| TrieContents.EmptyKeyNeverStored | src/util/triemap.c:101-103 | the empty key is never in the abstract map of a valid trie |
| TrieAdd.AddAt | src/util/triemap.c:99-168 | the empty key changes nothing and returns 0; otherwise the code is 0 exactly when the key's node exists, is terminal and is not deleted; the new subtree's segment is a prefix of the old one |
| TrieAdd.AddAtLookup | src/util/triemap.c:99-168 | Add stores at the key the new value, or the callback's merge of the key node's old value with it, and changes what no other key finds |
| TrieAdd.AddAtValid | src/util/triemap.c:99-168 | Add preserves the radix invariant (distinct first bytes), non-empty segments below the root, the path-length budget, the child-count bound and the value and flag consistency |
| TrieAdd.AddAtCompacted | src/util/triemap.c:99-168 | Add keeps every proper descendant a live entry or a branching point |
| TrieAdd.Add | src/util/triemap.c:99-168 | on a valid trie: the result is a valid trie; the empty key changes nothing and returns 0; the code is 1 exactly for a key not stored before; the abstract map changes at that key only, to the new value or to the callback's merge when the key had a node |
| TrieAdd.AddUpdatesOneKey | src/util/triemap.c:99-168 | the abstract map after Add is the old map updated at the one key, and the return code tells whether the key was stored |
| TrieAdd.InsertThenFind | src/util/triemap.c:99-168 | without a callback, Find returns the value just added |
| TrieDelete.OptimizeFrom | src/util/triemap.c:215-244 | one pass over the children removes at most one child |
| TrieDelete.OptimizeFromLookup | src/util/triemap.c:215-244 | the compaction pass changes what no key finds |
| TrieDelete.OptimizeFromValid | src/util/triemap.c:215-244 | the compaction pass keeps the node valid |
| TrieDelete.OptimizeFromCompacts | src/util/triemap.c:215-244 | if at most one child is untidy and that child can be fixed, the pass leaves every child tidy and compacted |
| TrieDelete.DeleteAt | src/util/triemap.c:246-302 | the return code is 1 exactly when the key's node exists and is not yet a tombstone (a live entry or an internal node, which is then marked); a node never becomes terminal; each node loses at most one child |
| TrieDelete.DeleteAtLookup | src/util/triemap.c:246-302 | after Delete the key finds nothing, and no other key's answer changes |
| TrieDelete.DeleteAtCompacted | src/util/triemap.c:246-302 | Delete keeps the subtree compacted, and leaves a tidy node in a state its parent's pass repairs |
| TrieDelete.Delete | src/util/triemap.c:246-302 | on a valid trie: the result is a valid trie; the abstract map loses exactly the key; the code is 1 exactly when the key has a node that is not a tombstone, so it is 1 for every stored key; the empty key changes nothing and returns 0 |
| TrieDelete.DeleteRemovesOneKey | src/util/triemap.c:246-302 | the abstract map after Delete is the old one without the key |
| TrieDelete.DeleteThenFind | src/util/triemap.c:246-302 | after Delete, Find returns NULL for the key |
| TrieMemory.MemUsage | src/util/triemap.c:304-312 | the recursive usage equals the sum of the per-node allocation sizes over every node of the subtree |
| TrieMemory.MemUsageClosedForm | src/util/triemap.c:4-6 | a subtree with N nodes uses N headers, N - 1 child pointers, all segment bytes and N terminating bytes |
| TrieMemory.FreeReleasesStoredValues | src/util/triemap.c:314-328 | Free on a valid trie releases exactly the stored values: each value of the abstract map, and nothing else |
| DeleteStack.DescentPushes | src/util/triemap.c:246-294 | the descent loop pushes one node per visited node and overflows a stack of the given capacity exactly when the descent visits more nodes than that |
| DeleteStack.DescentDepthBound | src/util/triemap.c:251-294 | the descent over a valid trie visits at most one node more than the key has bytes |
| DeleteStack.CorrectedStackSuffices | src/util/triemap.c:248 | a stack of `TM_MAX_STRING_LEN + 1` slots holds every descent for every key of at most `TM_MAX_STRING_LEN` bytes |
| DeleteStack.ChainGrows | src/util/triemap.c:99-168 | adding the next longer run of `'a'` to the chain trie extends the chain by one node, so Add builds the counterexample trie |
| DeleteStack.StackOverflowAsWritten | src/util/triemap.c:248-252 | the chain trie of `'a'`, ..., `'a'`^65535 is valid, and deleting `'a'`^65535 visits 65536 nodes, one more than the declared stack holds |
| ChildCounter.IncrementAsWritten | src/util/triemap.c:28 | the 8-bit increment adds one below 255 and wraps 255 to 0 |
| ChildCounter.AddChildAsWritten | src/util/triemap.c:26-35 | the append as written agrees with the model's append below 255 children; at 255 children the node afterwards reaches as many children as the wrapped counter says |
| ChildCounter.FanGrows | src/util/triemap.c:166-167 | Add builds the fan trie of the one-byte keys `[0]`, ..., `[m-1]` one leaf at a time from the empty trie |
| ChildCounter.CounterWrapsAsWritten | src/util/triemap.c:28-32 | the fan of 255 keys is valid and has no child for byte 255; the append as written leaves the root with no children, so neither `[0]` nor `[255]` is found afterwards |
| ChildCounter.CorrectedCounterKeepsKeys | src/util/triemap.c:166-167 | with a counter that holds 256, the same insertion gives the full fan of 256 children, and both `[0]` and `[255]` are found |

## Left out

- `TrieMapNode_Print` (triemap.c:87-97) writes to standard output and is not modelled.
- The packed node layout, `calloc`/`realloc`/`free` and pointer identity are not modelled: nodes are values. `__trieMapNode_Sizeof` takes `sizeof(TrieMapNode)` and `sizeof(TrieMapNode *)` as the `Layout` parameter, and sizes are unbounded naturals, so a `size_t` wrap is not modelled.
- Value ownership is not modelled. This covers the free callback, the leak when Add replaces a value without a merge callback, and the freeing of removed tombstones, which hold NULL. Free is modelled only as the sequence of values it releases (`TrieMemory.FreedValues`).
- A NULL value passed to Add, and a merge callback that returns NULL, are not modelled. Values are always present (`MergeFn` returns a value), so Find's NULL means "not stored" only.
- The static node stack of Delete is modelled by recursion, which optimizes the visited nodes in the same deepest-first order. The stack's capacity is modelled separately in `DeleteStack`. Sharing the static array between concurrent callers is not modelled.
- TrieAdd.AddAt: on an arbitrary subtree the model requires `AddFits` (room at the append site). On a valid trie this always holds (`TrieAdd.ValidNodeAddFits`), so `TrieAdd.Add` does not require it.
- TrieAdd.Add: requires a key of at most `TM_MAX_STRING_LEN` bytes, the range of the `tm_len_t` length parameter.

## Findings

| source | as written | input that shows it | evidently intended | confidence | as-written member | corrected member |
|---|---|---|---|---|---|---|
| src/util/triemap.c:248 | Delete's node stack has `TM_MAX_STRING_LEN` slots, and the descent pushes every visited node, the root included | the chain trie holding `'a'`, `'a'`^2, ..., `'a'`^65535 (each node one byte, the only child of the one above), then deleting `'a'`^65535: 65536 pushes, the last one writing `stack[65535]` | one slot per key byte plus one for the root: `TM_MAX_STRING_LEN + 1` | not executed | DeleteStack.StackOverflowAsWritten | DeleteStack.CorrectedStackSuffices |
| src/util/triemap.c:28 | the 8-bit `numChildren` is incremented with no check, but a node can need 256 children, one per byte value | adding the one-byte keys `[0x00]`, ..., `[0xFE]` and then `[0xFF]`: the 256th append wraps the root's counter to 0, the realloc shrinks the node and the new pointer is written before the child array; afterwards no key is found | a child counter that holds 256 | not executed | ChildCounter.CounterWrapsAsWritten | ChildCounter.CorrectedCounterKeepsKeys |
