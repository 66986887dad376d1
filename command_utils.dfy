/**
 * Hexadecimal key and solution codecs of the command-line front end.
 *
 * A boolean vector is written as hexadecimal, least significant nibble
 * last: bit 0 is the lowest bit of the LAST character. Each method is a
 * loop paired with the pure function that specifies it; the round trips
 * and the shape of the results are lemmas about those functions.
 */
module CommandUtils {
  import opened Common

  function Min(a: int, b: int): int { if a <= b then a else b }
  function Max(a: int, b: int): int { if a >= b then a else b }

  /** std::tolower in the C locale: only 'A' .. 'Z' change. */
  function ToLower(c: char): (r: char)
    ensures 'A' <= c <= 'Z' ==> r as int == c as int + 32
    ensures !('A' <= c <= 'Z') ==> r == c
  {
    if 'A' <= c <= 'Z' then (c as int - 'A' as int + 'a' as int) as char else c
  }

  function LowerString(s: string): (r: string)
    ensures |r| == |s|
    ensures forall i :: 0 <= i < |s| ==> r[i] == ToLower(s[i])
  {
    seq(|s|, i requires 0 <= i < |s| => ToLower(s[i]))
  }

  /** The value of one hexadecimal digit, either case; None for any other character. */
  function HexValue(c: char): (r: Option<nat>)
    ensures r.Some? <==> ('0' <= c <= '9' || 'a' <= c <= 'f' || 'A' <= c <= 'F')
    ensures r.Some? ==> r.value < 16
  {
    var l := ToLower(c);
    if '0' <= l <= '9' then Some(l as int - '0' as int)
    else if 'a' <= l <= 'f' then Some(l as int - 'a' as int + 10)
    else None
  }

  /** The lower-case digit of a value below 16. */
  function DigitChar(v: nat): (c: char)
    requires v < 16
    ensures HexValue(c) == Some(v)
    ensures '0' <= c <= '9' || 'a' <= c <= 'f'
  {
    if v < 10 then ('0' as int + v) as char else ('a' as int + (v - 10)) as char
  }

  lemma DigitOfValue(c: char)
    requires HexValue(c).Some?
    ensures DigitChar(HexValue(c).value) == ToLower(c)
  {}

  /** The n low bits of v, least significant first (the inner loop of the parser). */
  function LowBits(v: nat, n: nat): (r: seq<bool>)
    ensures |r| == n
  {
    if n == 0 then [] else [v % 2 == 1] + LowBits(v / 2, n - 1)
  }

  /** The number whose bits, least significant first, are b. */
  function ValueOf(b: seq<bool>): nat
  {
    if |b| == 0 then 0 else (if b[0] then 1 else 0) + 2 * ValueOf(b[1..])
  }

  function Pow2(n: nat): (r: nat)
    ensures r >= 1
  {
    if n == 0 then 1 else 2 * Pow2(n - 1)
  }

  lemma {:induction false} ValueOfBound(b: seq<bool>)
    ensures ValueOf(b) < Pow2(|b|)
  {
    if |b| > 0 {
      ValueOfBound(b[1..]);
    }
  }

  lemma {:induction false} ValueOfSnoc(b: seq<bool>, x: bool)
    ensures ValueOf(b + [x]) == ValueOf(b) + (if x then Pow2(|b|) else 0)
  {
    if |b| > 0 {
      assert (b + [x])[1..] == b[1..] + [x];
      ValueOfSnoc(b[1..], x);
    }
  }

  lemma {:induction false} ValueOfLowBits(v: nat, n: nat)
    requires v < Pow2(n)
    ensures ValueOf(LowBits(v, n)) == v
  {
    if n > 0 {
      ValueOfLowBits(v / 2, n - 1);
      assert LowBits(v, n)[1..] == LowBits(v / 2, n - 1);
    }
  }

  lemma {:induction false} LowBitsOfValue(b: seq<bool>, n: nat)
    requires |b| <= n
    ensures LowBits(ValueOf(b), n) == b + Falses(n - |b|)
  {
    if n > 0 {
      if |b| == 0 {
        LowBitsOfValue([], n - 1);
        assert LowBits(0, n) == [false] + Falses(n - 1);
      } else {
        var v, w := ValueOf(b), ValueOf(b[1..]);
        assert v == (if b[0] then 1 else 0) + 2 * w;
        assert v % 2 == 1 <==> b[0];
        assert v / 2 == w;
        LowBitsOfValue(b[1..], n - 1);
        calc {
          LowBits(v, n);
          [b[0]] + LowBits(w, n - 1);
          [b[0]] + (b[1..] + Falses(n - |b|));
          { assert b == [b[0]] + b[1..]; }
          b + Falses(n - |b|);
        }
      }
    }
  }

  /*
   * Parsing (parse_hex_string_to_bool).
   */

  function NotHexMessage(c: char): string
  {
    "<" + [c] + "> is not a proper hexadecimal character"
  }

  /**
   * The bits of a hexadecimal string: the characters are read from the last
   * to the first, each giving four bits least significant first. The error
   * names the rightmost offending character, the first the parser meets.
   */
  function ParseHex(s: string): Result<seq<bool>>
  {
    if |s| == 0 then Ok([])
    else match ParseHex(s[1..])
      case Err(m) => Err(m)
      case Ok(b) =>
        match HexValue(s[0])
        case None => Err(NotHexMessage(s[0]))
        case Some(v) => Ok(b + LowBits(v, 4))
  }

  lemma {:induction false} ParseHexShape(s: string)
    ensures ParseHex(s).Ok? <==> forall i :: 0 <= i < |s| ==> HexValue(s[i]).Some?
    ensures ParseHex(s).Ok? ==> |ParseHex(s).value| == 4 * |s|
  {
    if |s| > 0 {
      ParseHexShape(s[1..]);
      assert forall i :: 1 <= i < |s| ==> s[i] == s[1..][i - 1];
    }
  }

  /** Character i of s (counted from the left) supplies bits 4(|s|-1-i) .. 4(|s|-1-i)+3. */
  lemma {:induction false} ParseHexBits(s: string, i: nat, j: nat)
    requires ParseHex(s).Ok? && i < |s| && j < 4
    ensures |ParseHex(s).value| == 4 * |s|
    ensures HexValue(s[i]).Some?
    ensures ParseHex(s).value[4 * (|s| - 1 - i) + j] == LowBits(HexValue(s[i]).value, 4)[j]
  {
    ParseHexShape(s);
    ParseHexShape(s[1..]);
    if i > 0 {
      assert s[1..][i - 1] == s[i];
      ParseHexBits(s[1..], i - 1, j);
    }
  }

  /** Pushing a character onto the right end of a string: its nibble goes first. */
  lemma {:induction false} ParseHexSnoc(s: string, c: char)
    ensures ParseHex(s + [c]) ==
      match HexValue(c)
      case None => Err(NotHexMessage(c))
      case Some(v) =>
        match ParseHex(s)
        case Err(m) => Err(m)
        case Ok(b) => Ok(LowBits(v, 4) + b)
  {
    if |s| == 0 {
      assert s + [c] == [c];
      assert ([c])[1..] == [];
      if HexValue(c).Some? {
        assert LowBits(HexValue(c).value, 4) + [] == [] + LowBits(HexValue(c).value, 4);
      }
    } else {
      assert (s + [c])[1..] == s[1..] + [c];
      assert (s + [c])[0] == s[0];
      ParseHexSnoc(s[1..], c);
      match HexValue(c)
      case None =>
      case Some(v) =>
        match ParseHex(s[1..])
        case Err(m) =>
        case Ok(b) =>
          match HexValue(s[0])
          case None =>
          case Some(w) =>
            assert LowBits(v, 4) + b + LowBits(w, 4) == LowBits(v, 4) + (b + LowBits(w, 4));
    }
  }

  /** parse_hex_string_to_bool: one pass from the last character to the first. */
  method ParseHexStringToBool(s: string) returns (r: Result<seq<bool>>)
    ensures r == ParseHex(s)
  {
    var ret: seq<bool> := [];
    var k := |s|;
    while k > 0
      invariant 0 <= k <= |s|
      invariant ParseHex(s[k..]) == Ok(ret)
    {
      var c := s[k - 1];
      assert s[k - 1..][1..] == s[k..];
      assert s[k - 1..][0] == c;
      var d := HexValue(c);
      if d.None? {
        ParseHexErrorPropagates(s, k - 1);
        return Err(NotHexMessage(c));
      }
      ret := PushNibble(ret, d.value);
      k := k - 1;
    }
    assert s[0..] == s;
    r := Ok(ret);
  }

  /** The parser's inner loop: four bits of v, least significant first. */
  method PushNibble(pre: seq<bool>, v0: nat) returns (ret: seq<bool>)
    ensures ret == pre + LowBits(v0, 4)
  {
    ret := pre;
    var v := v0;
    var i := 0;
    while i < 4
      invariant 0 <= i <= 4
      invariant ret + LowBits(v, 4 - i) == pre + LowBits(v0, 4)
    {
      assert LowBits(v, 4 - i) == [v % 2 == 1] + LowBits(v / 2, 4 - i - 1);
      ret := ret + [v % 2 == 1];
      v := v / 2;
      i := i + 1;
    }
    assert ret + LowBits(v, 0) == ret;
  }

  /** An error on a suffix is the error of the whole string. */
  lemma {:induction false} ParseHexErrorPropagates(s: string, k: nat)
    requires k < |s| && ParseHex(s[k + 1..]).Ok? && HexValue(s[k]).None?
    ensures ParseHex(s) == Err(NotHexMessage(s[k]))
    decreases k
  {
    assert s[k..][1..] == s[k + 1..];
    if k > 0 {
      assert s[k - 1..][1..] == s[k..];
      ParseHexErrorFromSuffix(s, k - 1, NotHexMessage(s[k]));
    }
  }

  lemma {:induction false} ParseHexErrorFromSuffix(s: string, k: nat, m: string)
    requires k < |s| && ParseHex(s[k + 1..]) == Err(m)
    ensures ParseHex(s) == Err(m)
    decreases k
  {
    assert s[k..][1..] == s[k + 1..];
    if k > 0 {
      ParseHexErrorFromSuffix(s, k - 1, m);
    } else {
      assert s[0..] == s;
    }
  }

  /*
   * Printing (create_hex_string on a boolean vector).
   */

  /** The digits in the order the printer emits them: the group holding bit 0 first. */
  function Digits(b: seq<bool>): (r: string)
    decreases |b|
  {
    if |b| == 0 then []
    else
      var g := Min(4, |b|);
      ValueOfBound(b[..g]);
      [DigitChar(ValueOf(b[..g]))] + Digits(b[g..])
  }

  function Reverse<T>(s: seq<T>): (r: seq<T>)
    ensures |r| == |s|
  {
    if |s| == 0 then [] else Reverse(s[1..]) + [s[0]]
  }

  /** The hexadecimal text of b: one digit per started group of four bits, bit 0 in the last digit. */
  function HexOf(b: seq<bool>): string
  {
    Reverse(Digits(b))
  }

  lemma HexOfStep(b: seq<bool>)
    requires |b| > 0
    ensures ValueOf(b[..Min(4, |b|)]) < 16
    ensures HexOf(b) == HexOf(b[Min(4, |b|)..]) + [DigitChar(ValueOf(b[..Min(4, |b|)]))]
  {
    ValueOfBound(b[..Min(4, |b|)]);
  }

  lemma {:induction false} HexOfShape(b: seq<bool>)
    ensures |HexOf(b)| == (|b| + 3) / 4
    ensures forall i :: 0 <= i < |HexOf(b)| ==> '0' <= HexOf(b)[i] <= '9' || 'a' <= HexOf(b)[i] <= 'f'
    decreases |b|
  {
    if |b| > 0 {
      HexOfStep(b);
      HexOfShape(b[Min(4, |b|)..]);
    }
  }

  lemma {:induction false} ReverseAppend<T>(x: seq<T>, y: seq<T>)
    ensures Reverse(x + y) == Reverse(y) + Reverse(x)
    decreases |x|
  {
    if |x| == 0 {
      assert x + y == y;
    } else {
      assert (x + y)[1..] == x[1..] + y;
      ReverseAppend(x[1..], y);
    }
  }

  lemma {:induction false} DigitsAppend(a: seq<bool>, c: seq<bool>)
    requires |a| % 4 == 0
    ensures Digits(a + c) == Digits(a) + Digits(c)
    decreases |a|
  {
    if |a| == 0 {
      assert a + c == c;
    } else {
      assert (a + c)[..4] == a[..4];
      assert (a + c)[4..] == a[4..] + c;
      DigitsAppend(a[4..], c);
    }
  }

  /** Bits in front of a whole number of groups print as digits to the left. */
  lemma HexOfAppend(a: seq<bool>, c: seq<bool>)
    requires |a| % 4 == 0
    ensures HexOf(a + c) == HexOf(c) + HexOf(a)
  {
    DigitsAppend(a, c);
    ReverseAppend(Digits(a), Digits(c));
  }

  /** The value of the group of (at most) four bits starting at i: the printer's inner loop. */
  method GroupValue(b: seq<bool>, i: nat) returns (v: nat)
    requires i < |b|
    ensures v == ValueOf(b[i..Min(i + 4, |b|)]) && v < 16
  {
    v := 0;
    var c := 1;
    var j := i;
    while j < i + 4 && j < |b|
      invariant i <= j <= Min(i + 4, |b|)
      invariant v == ValueOf(b[i..j]) && c == Pow2(j - i)
    {
      ValueOfSnoc(b[i..j], b[j]);
      assert |b[i..j]| == j - i;
      assert b[i..j + 1] == b[i..j] + [b[j]];
      if b[j] {
        v := v + c;
      }
      c := c * 2;
      j := j + 1;
    }
    ValueOfBound(b[i..j]);
    Pow2AtMostFour(j - i);
  }

  lemma Pow2AtMostFour(n: nat)
    requires n <= 4
    ensures Pow2(n) <= 16
  {
    if n > 0 {
      Pow2AtMostFour(n - 1);
    }
  }

  lemma DigitsStep(b: seq<bool>, i: nat)
    requires i < |b|
    ensures ValueOf(b[i..Min(i + 4, |b|)]) < 16
    ensures Digits(b[i..]) == [DigitChar(ValueOf(b[i..Min(i + 4, |b|)]))] + Digits(b[Min(i + 4, |b|)..])
  {
    assert b[i..][..Min(4, |b| - i)] == b[i..Min(i + 4, |b|)];
    assert b[i..][Min(4, |b| - i)..] == b[Min(i + 4, |b|)..];
    ValueOfBound(b[i..Min(i + 4, |b|)]);
  }

  /** create_hex_string(vector<bool>): digits emitted from bit 0 upwards, then reversed. */
  method CreateHexString(b: seq<bool>) returns (s: string)
    ensures s == HexOf(b)
  {
    var ret: string := [];
    var i := 0;
    while i < |b|
      invariant 0 <= i
      invariant ret + Digits(b[Min(i, |b|)..]) == Digits(b)
    {
      var v := GroupValue(b, i);
      DigitsStep(b, i);
      var c: char;
      if v < 10 {
        c := ('0' as int + v) as char;
      } else {
        c := ('a' as int + (v - 10)) as char;
      }
      assert c == DigitChar(v);
      assert ret + [c] + Digits(b[Min(i + 4, |b|)..]) == ret + Digits(b[i..]);
      ret := ret + [c];
      i := i + 4;
    }
    assert b[|b|..] == [];
    assert ret == Digits(b);
    s := Reverse(ret);
  }

  /*
   * Round trips.
   */

  /** v padded with false up to a whole number of nibbles. */
  function PadToNibbles(b: seq<bool>): (r: seq<bool>)
    ensures |r| % 4 == 0 && |b| <= |r| < |b| + 4
    ensures r[..|b|] == b
  {
    b + Falses((4 - |b| % 4) % 4)
  }

  /** Parsing printed bits gives them back, padded to a whole number of digits. */
  lemma {:induction false} ParsePrinted(b: seq<bool>)
    ensures ParseHex(HexOf(b)) == Ok(PadToNibbles(b))
    decreases |b|
  {
    if |b| > 0 {
      var g := Min(4, |b|);
      HexOfStep(b);
      var v := ValueOf(b[..g]);
      ParsePrinted(b[g..]);
      ParseHexSnoc(HexOf(b[g..]), DigitChar(v));
      LowBitsOfValue(b[..g], 4);
      PadFirstGroup(b);
    }
  }

  /** Padding b is the padded first group followed by the padded rest. */
  lemma PadFirstGroup(b: seq<bool>)
    requires |b| > 0
    ensures PadToNibbles(b) == b[..Min(4, |b|)] + Falses(4 - Min(4, |b|)) + PadToNibbles(b[Min(4, |b|)..])
  {
    if |b| >= 4 {
      assert (4 - |b| % 4) % 4 == (4 - |b[4..]| % 4) % 4;
      assert b[..4] + Falses(0) + (b[4..] + Falses((4 - |b| % 4) % 4)) == b + Falses((4 - |b| % 4) % 4);
    } else {
      assert b[|b|..] == [];
      assert b[..|b|] == b;
    }
  }

  /** Printing parsed text gives it back in lower case, leading zeros included. */
  lemma {:induction false} PrintParsed(s: string)
    requires ParseHex(s).Ok?
    ensures HexOf(ParseHex(s).value) == LowerString(s)
  {
    if |s| > 0 {
      var b := ParseHex(s[1..]).value;
      var v := HexValue(s[0]).value;
      var n := LowBits(v, 4);
      PrintParsed(s[1..]);
      ParseHexShape(s[1..]);
      HexOfAppend(b, n);
      HexOfStep(n);
      ValueOfLowBits(v, 4);
      assert n[..4] == n && n[4..] == [];
      assert HexOf(n) == [DigitChar(v)];
      DigitOfValue(s[0]);
      assert LowerString(s) == [ToLower(s[0])] + LowerString(s[1..]);
    }
  }

  /*
   * Solutions as sets of node indices.
   */

  /** The indices of the set bits, in increasing order. */
  function SetPositions(b: seq<bool>): (r: seq<nat>)
    ensures forall k :: 0 <= k < |r| ==> r[k] < |b| && b[r[k]]
    ensures forall i :: 0 <= i < |b| && b[i] ==> i in r
    ensures forall k, l :: 0 <= k < l < |r| ==> r[k] < r[l]
  {
    if |b| == 0 then []
    else
      var p := SetPositions(b[..|b| - 1]);
      assert forall i :: 0 <= i < |b| - 1 ==> b[..|b| - 1][i] == b[i];
      p + (if b[|b| - 1] then [|b| - 1] else [])
  }

  /** parse_hex_string_to_sol */
  method ParseHexStringToSol(s: string) returns (r: Result<seq<nat>>)
    ensures ParseHex(s).Err? ==> r == Err(ParseHex(s).msg)
    ensures ParseHex(s).Ok? ==> r == Ok(SetPositions(ParseHex(s).value))
  {
    var parsed := ParseHexStringToBool(s);
    if parsed.Err? {
      return Err(parsed.msg);
    }
    var b := parsed.value;
    var ret: seq<nat> := [];
    var i := 0;
    while i < |b|
      invariant 0 <= i <= |b|
      invariant ret == SetPositions(b[..i])
    {
      assert b[..i + 1][..i] == b[..i];
      if b[i] {
        ret := ret + [i];
      }
      i := i + 1;
    }
    assert b[..i] == b;
    r := Ok(ret);
  }

  /** The indicator vector of a set of indices, of the given size. */
  function Indicator(sol: seq<int>, size: nat): (b: seq<bool>)
    requires forall k :: 0 <= k < |sol| ==> 0 <= sol[k] < size
    ensures |b| == size
    ensures forall i :: 0 <= i < size ==> (b[i] <==> i in sol)
  {
    seq(size, i => i in sol)
  }

  function MaxOf(sol: seq<int>): (m: int)
    requires |sol| > 0
    ensures m in sol && forall k :: 0 <= k < |sol| ==> sol[k] <= m
  {
    if |sol| == 1 then sol[0] else Max(sol[0], MaxOf(sol[1..]))
  }

  /**
   * create_hex_string(vector<int>, nbNodes) as written: the bit vector has
   * max(largest index, nbNodes) entries and every index is then written, so
   * the largest index is written one past the end whenever it is at least
   * nbNodes. None stands for that out-of-bounds write (and for a negative
   * index or size).
   */
  function SolHexAsWritten(sol: seq<int>, nbNodes: int): Option<string>
  {
    var size := if |sol| == 0 then nbNodes else Max(MaxOf(sol), nbNodes);
    if size < 0 || exists k :: 0 <= k < |sol| && !(0 <= sol[k] < size) then None
    else Some(HexOf(Indicator(sol, size)))
  }

  /** The written code fails exactly when some index is negative or not below nbNodes. */
  lemma SolHexAsWrittenFails(sol: seq<int>, nbNodes: int)
    requires nbNodes >= 0
    ensures SolHexAsWritten(sol, nbNodes).None? <==> exists k :: 0 <= k < |sol| && !(0 <= sol[k] < nbNodes)
  {
    if |sol| > 0 {
      var m := MaxOf(sol);
      if m >= nbNodes {
        var k :| 0 <= k < |sol| && sol[k] == m;
        assert !(0 <= sol[k] < Max(m, nbNodes));
      }
    }
  }

  /** The call at the default nbNodes = 0 fails on any non-empty solution, e.g. {0}. */
  lemma SolHexAsWrittenDefaultSize()
    ensures SolHexAsWritten([0], 0).None?
    ensures SolHexCorrected([0], 0) == "1"
  {
    assert !(0 <= [0][0] < Max(MaxOf([0]), 0));
    var b := Indicator([0], 1);
    assert b == [true];
    assert b[..1] == [true] && b[1..] == [];
    HexOfStep(b);
    assert ValueOf([true]) == 1;
  }

  /**
   * The intended size: one more than the largest index, or nbNodes if that
   * is larger.
   */
  function SolSize(sol: seq<int>, nbNodes: nat): (size: nat)
    requires forall k :: 0 <= k < |sol| ==> sol[k] >= 0
    ensures forall k :: 0 <= k < |sol| ==> sol[k] < size
    ensures nbNodes <= size
  {
    if |sol| == 0 then nbNodes else Max(MaxOf(sol) + 1, nbNodes)
  }

  function SolHexCorrected(sol: seq<int>, nbNodes: nat): string
    requires forall k :: 0 <= k < |sol| ==> sol[k] >= 0
  {
    HexOf(Indicator(sol, SolSize(sol, nbNodes)))
  }

  /** Whenever the written code stays in bounds, the corrected one prints the same text. */
  lemma SolHexAgrees(sol: seq<int>, nbNodes: nat)
    requires forall k :: 0 <= k < |sol| ==> 0 <= sol[k] < nbNodes
    ensures SolHexAsWritten(sol, nbNodes) == Some(SolHexCorrected(sol, nbNodes))
  {
    if |sol| > 0 {
      assert MaxOf(sol) < nbNodes;
    }
  }

  /** The corrected print parses back to exactly the indices of the solution. */
  lemma {:induction false} SolHexRoundTrip(sol: seq<int>, nbNodes: nat, i: int)
    requires forall k :: 0 <= k < |sol| ==> sol[k] >= 0
    ensures ParseHex(SolHexCorrected(sol, nbNodes)).Ok?
    ensures i in SetPositions(ParseHex(SolHexCorrected(sol, nbNodes)).value) <==> i in sol
  {
    var b := Indicator(sol, SolSize(sol, nbNodes));
    ParsePrinted(b);
    var p := PadToNibbles(b);
    if i in sol {
      assert 0 <= i < |b| && b[i] && p[i];
    }
    assert p[|b|..] == Falses((4 - |b| % 4) % 4);
    forall j | |b| <= j < |p|
      ensures !p[j]
    {
      assert p[j] == p[|b|..][j - |b|];
    }
  }

  /** create_hex_string(vector<int>, nbNodes), with the bit vector sized as intended. */
  method CreateHexStringOfSol(sol: seq<int>, nbNodes: nat) returns (s: string)
    requires forall k :: 0 <= k < |sol| ==> sol[k] >= 0
    ensures s == SolHexCorrected(sol, nbNodes)
  {
    var size := SolSize(sol, nbNodes);
    var b := Falses(size);
    for k := 0 to |sol|
      invariant |b| == size
      invariant forall i :: 0 <= i < size ==> (b[i] <==> i in sol[..k])
    {
      assert sol[..k + 1] == sol[..k] + [sol[k]];
      b := b[sol[k] := true];
    }
    assert sol[..|sol|] == sol;
    assert b == Indicator(sol, size);
    s := CreateHexString(b);
  }
}
