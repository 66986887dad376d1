/**
 * The boolean functions of the point-function countermeasure blocks of
 * antisat.cpp. Each builder appends word-level cells ($xor, $reduce_and,
 * $not, $and, $eq) to the module; what is modelled is the function of the
 * block's output, with a signal of n bits as a sequence of n booleans.
 */
module AntiSat {

  type Bits = seq<bool>

  /** The $xor cell on two signals of equal width. */
  function XorBits(a: Bits, b: Bits): (r: Bits)
    requires |a| == |b|
    ensures |r| == |a| && forall i :: 0 <= i < |a| ==> r[i] == (a[i] != b[i])
  {
    if a == [] then [] else XorBits(a[..|a| - 1], b[..|b| - 1]) + [a[|a| - 1] != b[|b| - 1]]
  }

  /** The bitwise complement of a signal. */
  function NotBits(a: Bits): (r: Bits)
    ensures |r| == |a| && forall i :: 0 <= i < |a| ==> r[i] == !a[i]
  {
    seq(|a|, i requires 0 <= i < |a| => !a[i])
  }

  /** The $reduce_and cell, folding from bit 0 with the constant 1. */
  function ReduceAnd(a: Bits): (r: bool)
  {
    if a == [] then true else ReduceAnd(a[..|a| - 1]) && a[|a| - 1]
  }

  /** $reduce_and is 1 exactly when every bit is 1. */
  lemma {:induction false} ReduceAndAll(a: Bits)
    ensures ReduceAnd(a) <==> forall i :: 0 <= i < |a| ==> a[i]
  {
    if a != [] {
      ReduceAndAll(a[..|a| - 1]);
      assert forall i :: 0 <= i < |a| - 1 ==> a[..|a| - 1][i] == a[i];
    }
  }

  /** The reduced XOR of x and k is 1 exactly on the single value x == NOT k. */
  lemma MatchesComplement(x: Bits, k: Bits)
    requires |x| == |k|
    ensures ReduceAnd(XorBits(x, k)) <==> x == NotBits(k)
  {
    ReduceAndAll(XorBits(x, k));
    if forall i :: 0 <= i < |x| ==> XorBits(x, k)[i] {
      assert x == NotBits(k);
    }
  }

  /*
   * AntiSAT
   */

  /** The flip of create_antisat_module: AND(in XOR key1) AND NOT AND(in XOR key2). */
  function AntiSatFlip(input: Bits, key1: Bits, key2: Bits): bool
    requires |input| == |key1| == |key2|
  {
    ReduceAnd(XorBits(input, key1)) && !ReduceAnd(XorBits(input, key2))
  }

  /** With equal key halves the block never flips, whatever the input. */
  lemma AntiSatEqualKeysNeverFlip(input: Bits, key: Bits)
    requires |input| == |key|
    ensures !AntiSatFlip(input, key, key)
  {}

  /** With different key halves the block flips on exactly one input, the complement of key1. */
  lemma AntiSatFlipsOnce(input: Bits, key1: Bits, key2: Bits)
    requires |input| == |key1| == |key2| && key1 != key2
    ensures AntiSatFlip(input, key1, key2) <==> input == NotBits(key1)
  {
    MatchesComplement(input, key1);
    MatchesComplement(input, key2);
    if input == NotBits(key1) {
      assert NotBits(key1) != NotBits(key2) by {
        var i :| 0 <= i < |key1| && key1[i] != key2[i];
        assert NotBits(key1)[i] != NotBits(key2)[i];
      }
    }
  }

  /*
   * SARLock
   */

  /** The flip of create_sarlock_module: (in == key) AND NOT (key == expected). */
  function SarLockFlip(input: Bits, key: Bits, expected: Bits): (flip: bool)
    requires |input| == |key| == |expected|
    ensures key == expected ==> !flip
    ensures key != expected ==> (flip <==> input == key)
    ensures flip ==> exists i :: 0 <= i < |key| && key[i] != expected[i]
  {
    input == key && key != expected
  }

  /*
   * SKGLock
   */

  /** Output bit i of create_skglock_module: the AND of in XOR key over bits 0..i. */
  function PrefixMatch(input: Bits, key: Bits, i: nat): bool
    requires |input| == |key| && i < |input|
  {
    forall j :: 0 <= j <= i ==> input[j] != key[j]
  }

  /** The prefix-AND chain of create_skglock_module, one $and per bit, carried in b. */
  method SkgLock(input: Bits, key: Bits) returns (out: Bits)
    requires |input| == |key|
    ensures |out| == |input| && forall i :: 0 <= i < |input| ==> out[i] == PrefixMatch(input, key, i)
  {
    var x := XorBits(input, key);
    var b := true;
    out := [];
    for i := 0 to |x|
      invariant |out| == i && forall j :: 0 <= j < i ==> out[j] == PrefixMatch(input, key, j)
      invariant b == forall j :: 0 <= j < i ==> input[j] != key[j]
    {
      b := x[i] && b;
      out := out + [b];
    }
  }

  /** Once an output bit is 0 every later one is 0: the outputs never rise with the bit index. */
  lemma SkgLockNonIncreasing(input: Bits, key: Bits, i: nat, j: nat)
    requires |input| == |key| && i <= j < |input|
    ensures PrefixMatch(input, key, j) ==> PrefixMatch(input, key, i)
  {}

  /** The correct key (the complement of the input, bit for bit) and only it activates the last output. */
  lemma SkgLockFullMatch(input: Bits, key: Bits)
    requires |input| == |key| > 0
    ensures PrefixMatch(input, key, |input| - 1) <==> key == NotBits(input)
  {
    if PrefixMatch(input, key, |input| - 1) {
      assert key == NotBits(input);
    }
  }
}
