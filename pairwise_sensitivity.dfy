/**
 * The word-level sensitivity test of is_pairwise_secure
 * (src/logic_locking_analyzer.cpp), and how it relates to the one-bit
 * condition documented next to the command (src/yosys_plugin.cpp).
 */
module Sensitivity {
  import opened Common

  /** The word-level sensitivity of a signal, as is_pairwise_secure computes it. */
  function SensitiveA(none: Word, a: Word, b: Word, both: Word): Word
  {
    !(none ^ a) | !(b ^ both)
  }

  function SensitiveB(none: Word, a: Word, b: Word, both: Word): Word
  {
    !(none ^ b) | !(a ^ both)
  }

  /**
   * The documented one-bit condition: the output is sensitive to a when
   * toggling a changes it, with b untoggled or toggled.
   */
  function BitSensitiveA(none: bool, a: bool, b: bool, both: bool): bool
  {
    none != a || b != both
  }

  function BitSensitiveB(none: bool, a: bool, b: bool, both: bool): bool
  {
    BitSensitiveA(none, b, a, both)
  }

  /** The one-bit condition taken on all 64 lanes at once. */
  function DocumentedSensitiveA(none: Word, a: Word, b: Word, both: Word): Word
  {
    (none ^ a) | (b ^ both)
  }

  function DocumentedSensitiveB(none: Word, a: Word, b: Word, both: Word): Word
  {
    DocumentedSensitiveA(none, b, a, both)
  }

  /** Lane k of the word-wide condition is the one-bit condition on lane k. */
  lemma DocumentedLane(none: Word, a: Word, b: Word, both: Word, k: bv6)
    ensures Bit(DocumentedSensitiveA(none, a, b, both), k)
            == BitSensitiveA(Bit(none, k), Bit(a, k), Bit(b, k), Bit(both, k))
  {
    ChangedLanes(none, a, b, both, k);
  }

  lemma ChangedLanes(none: Word, a: Word, b: Word, both: Word, k: bv6)
    ensures Bit((none ^ a) | (b ^ both), k) == BitSensitiveA(Bit(none, k), Bit(a, k), Bit(b, k), Bit(both, k))
  {
    BitOr(none ^ a, b ^ both, k);
    BitXor(none, a, k);
    BitXor(b, both, k);
  }

  /**
   * The tested words are not the one-bit condition lifted to words
   * (complemented changes against plain changes), yet they agree with each
   * other exactly when the lifted ones do.
   */
  lemma SensitivityAgreementSound(none: Word, a: Word, b: Word, both: Word)
    requires SensitiveA(none, a, b, both) == SensitiveB(none, a, b, both)
    ensures DocumentedSensitiveA(none, a, b, both) == DocumentedSensitiveB(none, a, b, both)
  {
    TestedToDocumented(none, a, b, both, none ^ a, b ^ both, none ^ b, a ^ both);
  }

  lemma SensitivityAgreementComplete(none: Word, a: Word, b: Word, both: Word)
    requires DocumentedSensitiveA(none, a, b, both) == DocumentedSensitiveB(none, a, b, both)
    ensures SensitiveA(none, a, b, both) == SensitiveB(none, a, b, both)
  {
    DocumentedToTested(none, a, b, both, none ^ a, b ^ both, none ^ b, a ^ both);
  }

  /** The four changes of a pair, named: p and q for toggling a, r and s for toggling b. */
  lemma TestedToDocumented(none: Word, a: Word, b: Word, both: Word, p: Word, q: Word, r: Word, s: Word)
    requires p == none ^ a && q == b ^ both && r == none ^ b && s == a ^ both
    requires !p | !q == !r | !s
    ensures p | q == r | s
  {
    SameTotalChange(none, a, b, both);
    OrFromNand(p, q, r, s);
  }

  lemma DocumentedToTested(none: Word, a: Word, b: Word, both: Word, p: Word, q: Word, r: Word, s: Word)
    requires p == none ^ a && q == b ^ both && r == none ^ b && s == a ^ both
    requires p | q == r | s
    ensures !p | !q == !r | !s
  {
    SameTotalChange(none, a, b, both);
    NandFromOr(p, q, r, s);
  }

  /** Both orders of toggling a and b change the same lanes in total. */
  lemma SameTotalChange(none: Word, a: Word, b: Word, both: Word)
    ensures (none ^ a) ^ (b ^ both) == (none ^ b) ^ (a ^ both)
  {
  }

  /**
   * Two pairs with the same exclusive or: their "not both" words agree
   * exactly when their "either" words do.
   */
  lemma OrFromNand(p: Word, q: Word, r: Word, s: Word)
    requires p ^ q == r ^ s
    requires !p | !q == !r | !s
    ensures p | q == r | s
  {
  }

  lemma NandFromOr(p: Word, q: Word, r: Word, s: Word)
    requires p ^ q == r ^ s
    requires p | q == r | s
    ensures !p | !q == !r | !s
  {
  }
}
