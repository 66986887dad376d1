/** Shared vocabulary: error-carrying results and 64-lane machine words. */
module Common {

  /** An optional value, as the source's "found / not found" booleans paired with out-parameters. */
  datatype Option<T> = None | Some(value: T)

  /** A value or the message of the error the source raises (log_error, log_cmd_error, a throw). */
  datatype Result<T> = Ok(value: T) | Err(msg: string)

  /** A 64-bit word holding 64 independent simulation lanes (std::uint64_t in the source). */
  type Word = bv64

  const AllOnes: Word := 0xFFFF_FFFF_FFFF_FFFF

  /** Lane k of a word. */
  predicate Bit(w: Word, k: bv6)
  {
    (w >> k) & 1 == 1
  }

  /** The number of set bits among lanes 0 .. n-1 of w. */
  function BitsBelow(w: Word, n: nat): (c: nat)
    requires n <= 64
    ensures c <= n
  {
    if n == 0 then 0 else BitsBelow(w, n - 1) + (if Bit(w, (n - 1) as bv6) then 1 else 0)
  }

  /** std::bitset<64>(w).count() */
  function PopCount(w: Word): (c: nat)
    ensures c <= 64
  {
    BitsBelow(w, 64)
  }

  /** Sum of the population counts of a sequence of words. */
  function PopCountAll(ws: seq<Word>): (c: nat)
    ensures c <= 64 * |ws|
  {
    if ws == [] then 0 else PopCountAll(ws[..|ws| - 1]) + PopCount(ws[|ws| - 1])
  }

  lemma PopCountAllAppend(ws: seq<Word>, w: Word)
    ensures PopCountAll(ws + [w]) == PopCountAll(ws) + PopCount(w)
  {
    assert (ws + [w])[..|ws|] == ws;
  }

  lemma PopCountAllConcat(xs: seq<Word>, ys: seq<Word>)
    ensures PopCountAll(xs + ys) == PopCountAll(xs) + PopCountAll(ys)
    decreases |ys|
  {
    if ys == [] {
      assert xs + ys == xs;
    } else {
      var ys' := ys[..|ys| - 1];
      assert xs + ys == (xs + ys') + [ys[|ys| - 1]];
      PopCountAllConcat(xs, ys');
      PopCountAllAppend(xs + ys', ys[|ys| - 1]);
      assert ys == ys' + [ys[|ys| - 1]];
      PopCountAllAppend(ys', ys[|ys| - 1]);
    }
  }

  /** Bitwise facts the word-level proofs rest on; Z3 decides each one on its own. */
  lemma BitAnd(x: Word, y: Word, k: bv6)
    ensures Bit(x & y, k) == (Bit(x, k) && Bit(y, k))
  {}

  lemma BitOr(x: Word, y: Word, k: bv6)
    ensures Bit(x | y, k) == (Bit(x, k) || Bit(y, k))
  {}

  lemma BitXor(x: Word, y: Word, k: bv6)
    ensures Bit(x ^ y, k) == (Bit(x, k) != Bit(y, k))
  {}

  lemma BitNot(x: Word, k: bv6)
    ensures Bit(!x, k) == !Bit(x, k)
  {}

  lemma BitZero(k: bv6)
    ensures !Bit(0, k) && Bit(AllOnes, k)
  {}

  /** n zero words: a fresh row of lanes with nothing recorded. */
  function ZeroWords(n: nat): (w: seq<Word>)
    ensures |w| == n && forall i :: 0 <= i < n ==> w[i] == 0
  {
    seq(n, i => 0)
  }

  /** n false flags. */
  function Falses(n: nat): (r: seq<bool>)
    ensures |r| == n && forall i :: 0 <= i < n ==> !r[i]
  {
    seq(n, i => false)
  }

  /** The zero word has no set bit, so a run of zero words counts nothing. */
  lemma {:induction false} PopCountAllZero(ws: seq<Word>)
    requires forall i :: 0 <= i < |ws| ==> ws[i] == 0
    ensures PopCountAll(ws) == 0
  {
    if ws != [] {
      PopCountAllZero(ws[..|ws| - 1]);
      BitsBelowZero(64);
    }
  }

  lemma {:induction false} BitsBelowZero(n: nat)
    requires n <= 64
    ensures BitsBelow(0, n) == 0
  {
    if n > 0 {
      BitsBelowZero(n - 1);
      BitZero((n - 1) as bv6);
    }
  }

  /*
   * C++ integer division and remainder truncate toward zero.
   */

  function CDiv(a: int, b: int): int
    requires b > 0
  {
    if a >= 0 then a / b else -((-a) / b)
  }

  function CRem(a: int, b: int): int
    requires b > 0
  {
    a - CDiv(a, b) * b
  }

  /**
   * The rounding the logic_locking and ll_explore commands apply to a
   * requested number of vectors: a count that is not a multiple of 64
   * becomes ((n + 63) / 64) * 64 in int arithmetic.
   */
  function RoundToLanes(n: int): int
  {
    if CRem(n, 64) != 0 then CDiv(n + 63, 64) * 64 else n
  }

  /**
   * The rounded count is a multiple of 64 never below the request; for a
   * request of zero or more it is the least such multiple, so multiples
   * of 64 are kept.
   */
  lemma RoundToLanesSpec(n: int)
    ensures RoundToLanes(n) % 64 == 0 && RoundToLanes(n) >= n
    ensures n >= 0 ==> RoundToLanes(n) < n + 64
    ensures n >= 0 ==> forall m :: m >= n && m % 64 == 0 ==> RoundToLanes(n) <= m
    ensures n % 64 == 0 ==> RoundToLanes(n) == n
  {
    var r := RoundToLanes(n);
    if n >= 0 {
      if n % 64 != 0 {
        assert CRem(n, 64) == n % 64;
        assert r == (n / 64 + 1) * 64;
      }
      forall m | m >= n && m % 64 == 0
        ensures r <= m
      {
        assert m == (m / 64) * 64;
        assert r == ((n + 63) / 64) * 64;
      }
    } else if CRem(n, 64) != 0 {
      assert r == -((-(n + 63)) / 64) * 64 || n + 63 >= 0;
    }
  }

  /*
   * Decimal text, as printf's %d writes an int into the error messages.
   */

  /** The character of a decimal digit. */
  function DecimalDigit(d: nat): (c: char)
    requires d < 10
    ensures '0' <= c <= '9' && c as int - '0' as int == d
  {
    ('0' as int + d) as char
  }

  /** The decimal digits of n, most significant first, with no leading zero. */
  function DecimalDigits(n: nat): (s: string)
    ensures |s| > 0 && forall k :: 0 <= k < |s| ==> '0' <= s[k] <= '9'
    ensures s[0] == '0' ==> n == 0
  {
    if n < 10 then [DecimalDigit(n)] else DecimalDigits(n / 10) + [DecimalDigit(n % 10)]
  }

  /** The number a string of decimal digits denotes, most significant first. */
  function DecimalValue(s: string): nat
    requires forall k :: 0 <= k < |s| ==> '0' <= s[k] <= '9'
  {
    if s == [] then 0 else 10 * DecimalValue(s[..|s| - 1]) + (s[|s| - 1] as int - '0' as int)
  }

  /** Reading the printed digits back gives the number. */
  lemma {:induction false} DecimalRoundTrip(n: nat)
    ensures DecimalValue(DecimalDigits(n)) == n
  {
    if n >= 10 {
      DecimalRoundTrip(n / 10);
      var s := DecimalDigits(n);
      assert s[..|s| - 1] == DecimalDigits(n / 10);
    }
  }

  /** %d: a minus sign before the digits of a negative number. */
  function Decimal(n: int): (s: string)
    ensures |s| > 0
    ensures n < 0 <==> s[0] == '-'
  {
    if n < 0 then "-" + DecimalDigits(-n) else DecimalDigits(n)
  }

  /** Different natural numbers have different digits. */
  lemma DigitsInjective(m: nat, n: nat)
    requires DecimalDigits(m) == DecimalDigits(n)
    ensures m == n
  {
    DecimalRoundTrip(m);
    DecimalRoundTrip(n);
  }

  /** Different numbers print differently, so a message determines the numbers in it. */
  lemma DecimalInjective(a: int, b: int)
    requires Decimal(a) == Decimal(b)
    ensures a == b
  {
    if a < 0 {
      var s := Decimal(a);
      assert s[1..] == DecimalDigits(-a);
      assert s[1..] == DecimalDigits(-b);
      DigitsInjective(-a, -b);
    } else {
      DigitsInjective(a, b);
    }
  }
}
