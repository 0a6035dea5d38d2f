/** The node flag byte of the trie (triemap.h): two independent single bits. The
    rest of the model keeps the two flags as booleans on the node; this module
    shows that every bit operation the C code performs on the flag byte acts on
    exactly the boolean it is meant to, leaving the other one (and every other
    bit) alone. */
module Flags {

  const TM_NODE_DELETED: bv8 := 0x01
  const TM_NODE_TERMINAL: bv8 := 0x02

  /** `__trieMapNode_isTerminal` */
  predicate IsTerminal(flags: bv8) {
    flags & TM_NODE_TERMINAL != 0
  }

  /** `__trieMapNode_isDeleted` */
  predicate IsDeleted(flags: bv8) {
    flags & TM_NODE_DELETED != 0
  }

  /** The flag byte that carries exactly the two given booleans (all other bits zero). */
  function Encode(terminal: bool, deleted: bool): (f: bv8)
    ensures IsTerminal(f) == terminal
    ensures IsDeleted(f) == deleted
    ensures f & !(TM_NODE_TERMINAL | TM_NODE_DELETED) == 0
  {
    (if terminal then TM_NODE_TERMINAL else 0) | (if deleted then TM_NODE_DELETED else 0)
  }

  /** The initial flags of `__newTrieMapNode`: `terminal ? TM_NODE_TERMINAL : 0`. */
  function NewNodeFlags(terminal: bool): (f: bv8)
    ensures IsTerminal(f) == terminal
    ensures !IsDeleted(f)
    ensures f == Encode(terminal, false)
  {
    if terminal then TM_NODE_TERMINAL else 0
  }

  /** `flags |= TM_NODE_TERMINAL` (Add on an exact match, or on a split parent). */
  function SetTerminal(flags: bv8): (f: bv8)
    ensures IsTerminal(f)
    ensures IsDeleted(f) == IsDeleted(flags)
    ensures f & !TM_NODE_TERMINAL == flags & !TM_NODE_TERMINAL
  {
    flags | TM_NODE_TERMINAL
  }

  /** `flags &= ~TM_NODE_DELETED` (Add reviving a tombstone). */
  function ClearDeleted(flags: bv8): (f: bv8)
    ensures !IsDeleted(f)
    ensures IsTerminal(f) == IsTerminal(flags)
    ensures f & !TM_NODE_DELETED == flags & !TM_NODE_DELETED
  {
    flags & !TM_NODE_DELETED
  }

  /** `flags &= ~(TM_NODE_TERMINAL | TM_NODE_DELETED)` (the parent left by a split). */
  function ClearBoth(flags: bv8): (f: bv8)
    ensures !IsTerminal(f) && !IsDeleted(f)
    ensures f & !(TM_NODE_TERMINAL | TM_NODE_DELETED) == flags & !(TM_NODE_TERMINAL | TM_NODE_DELETED)
  {
    flags & !(TM_NODE_TERMINAL | TM_NODE_DELETED)
  }

  /** `flags |= TM_NODE_DELETED; flags &= ~TM_NODE_TERMINAL` (Delete marking a tombstone). */
  function MarkDeleted(flags: bv8): (f: bv8)
    ensures IsDeleted(f) && !IsTerminal(f)
    ensures f & !(TM_NODE_TERMINAL | TM_NODE_DELETED) == flags & !(TM_NODE_TERMINAL | TM_NODE_DELETED)
  {
    (flags | TM_NODE_DELETED) & !TM_NODE_TERMINAL
  }

  /** On flag bytes built by `Encode`, each source operation is exactly the
      corresponding update of the boolean pair; this is what lets the node
      datatype keep two booleans instead of a byte. */
  lemma OperationsMatchBooleanView(terminal: bool, deleted: bool)
    ensures SetTerminal(ClearDeleted(Encode(terminal, deleted))) == Encode(true, false)
    ensures ClearDeleted(SetTerminal(Encode(terminal, deleted))) == Encode(true, false)
    ensures ClearBoth(Encode(terminal, deleted)) == Encode(false, false)
    ensures MarkDeleted(Encode(terminal, deleted)) == Encode(false, true)
    ensures SetTerminal(ClearBoth(Encode(terminal, deleted))) == Encode(true, false)
  {
  }

  /** The two flags are distinct single bits, so the two predicates are independent. */
  lemma FlagsAreDistinctBits()
    ensures TM_NODE_DELETED & TM_NODE_TERMINAL == 0
    ensures forall f: bv8 {:trigger IsTerminal(f)} :: IsTerminal(f) <==> (f >> 1) & 1 == 1
    ensures forall f: bv8 {:trigger IsDeleted(f)} :: IsDeleted(f) <==> f & 1 == 1
  {
  }
}
