/**
 * The SAT attack controller of src/sat_attack.cpp: the oracle-guided
 * attack on a locked combinational design. The attacker holds the locked
 * design as an AIG, a working copy of the design (the oracle, modelled as
 * the same design under the expected key) and a store of test vectors
 * (input, oracle output) that constrain the key. The solver, the random
 * input generator and the log are parameters.
 */
module SatAttackModel {
  import opened Common
  import opened MiniAig
  import opened SatEncoding

  /*
   * Keys as numbers: runBruteForce enumerates the keys as the integers
   * below 2^nbKeyBits, bit j of the key being bit j of the integer.
   */

  function Pow2(n: nat): (p: nat)
    ensures p >= 1
  {
    if n == 0 then 1 else 2 * Pow2(n - 1)
  }

  /** The key of n bits whose bit j is bit j of i. */
  function KeyOf(n: nat, i: nat): (k: seq<bool>)
    ensures |k| == n
  {
    if n == 0 then [] else [i % 2 == 1] + KeyOf(n - 1, i / 2)
  }

  /** The number whose binary digits, least significant first, are the key's bits. */
  function ValueOf(k: seq<bool>): nat
  {
    if k == [] then 0 else (if k[0] then 1 else 0) + 2 * ValueOf(k[1..])
  }

  /** Every key of n bits is candidate ValueOf(k) of the enumeration, and that candidate is below 2^n. */
  lemma {:induction false} KeyValueRoundTrip(k: seq<bool>)
    ensures ValueOf(k) < Pow2(|k|) && KeyOf(|k|, ValueOf(k)) == k
  {
    if k != [] {
      KeyValueRoundTrip(k[1..]);
      var v, b, r := ValueOf(k), (if k[0] then 1 else 0), ValueOf(k[1..]);
      assert v == 2 * r + b;
      DivUnique(v, 2, r, b);
      assert v % 2 == b;
      assert KeyOf(|k|, v) == [k[0]] + KeyOf(|k| - 1, r);
      assert [k[0]] + k[1..] == k;
    }
  }

  /** Bit j of candidate i is (i >> j) & 1, as runBruteForce computes it. */
  lemma {:induction false} KeyOfBit(n: nat, i: nat, j: nat)
    requires j < n
    ensures KeyOf(n, i)[j] == ((i / Pow2(j)) % 2 == 1)
  {
    if j > 0 {
      var m := Pow2(j - 1);
      assert KeyOf(n, i)[j] == KeyOf(n - 1, i / 2)[j - 1];
      KeyOfBit(n - 1, i / 2, j - 1);
      HalveTwice(i, m);
      assert Pow2(j) == 2 * m;
    } else {
      assert Pow2(j) == 1;
    }
  }

  lemma HalveTwice(i: nat, m: nat)
    requires m > 0
    ensures (i / 2) / m == i / (2 * m)
  {
    var q := i / 2;
    var a := q / m;
    var c := 2 * (q % m) + i % 2;
    assert q == m * a + q % m;
    assert i == (2 * m) * a + c;
    DivUnique(i, 2 * m, a, c);
  }

  lemma DivUnique(i: int, d: int, a: int, c: int)
    requires d > 0 && i == d * a + c && 0 <= c < d
    ensures i / d == a
  {
    var q := i / d;
    var r := i % d;
    assert d * (q - a) == c - r;
    MulAwayFromZero(d, q - a);
  }

  lemma MulAwayFromZero(d: int, e: int)
    requires d > 0
    ensures e >= 1 ==> d * e >= d
    ensures e <= -1 ==> d * e <= -d
  {}

  /*
   * The locked design: the one-bit outputs of the AIG for given data
   * inputs and key (callDesign), and the consistency of a key with a list
   * of test vectors (keyPassesTests).
   */

  predicate DesignShape(g: Aig, slots: seq<Slot>, nbKeyBits: nat)
  {
    WellFormed(g) && g.nbInputs == |slots| && KeyOffsetsBelow(slots, nbKeyBits)
  }

  function DesignOutputs(g: Aig, slots: seq<Slot>, inputs: seq<bool>, key: seq<bool>): (r: seq<bool>)
    requires DesignShape(g, slots, |key|) && DataCount(slots) <= |inputs|
    ensures |r| == |g.outputs|
  {
    EvalBool(g, Place(slots, inputs, key))
  }

  /** The key reproduces the recorded output of every test vector. */
  predicate PassesOn(g: Aig, slots: seq<Slot>, tin: seq<seq<bool>>, tout: seq<seq<bool>>, key: seq<bool>)
    requires DesignShape(g, slots, |key|)
  {
    |tin| == |tout|
    && forall i :: 0 <= i < |tin| ==> DataCount(slots) <= |tin[i]| && DesignOutputs(g, slots, tin[i], key) == tout[i]
  }

  /** The vectors from..from+n-1 of the random source. */
  function DrawnVectors(draw: nat -> seq<bool>, from: nat, n: nat): (r: seq<seq<bool>>)
    ensures |r| == n
  {
    if n == 0 then [] else DrawnVectors(draw, from, n - 1) + [draw(from + n - 1)]
  }

  /** The first n elements, or all of them when there are fewer. */
  function Take<T>(s: seq<T>, n: int): (r: seq<T>)
    ensures |r| == if n <= 0 then 0 else if |s| <= n then |s| else n
  {
    if n <= 0 then [] else if |s| <= n then s else s[..n]
  }

  /** The output formulas of the design for input formulas and key formulas (aigToSat then extractOutputs). */
  function EncodeOutputs(g: Aig, slots: seq<Slot>, inF: seq<Formula>, keyF: seq<Formula>): (r: seq<Formula>)
    requires DesignShape(g, slots, |keyF|) && DataCount(slots) <= |inF|
    ensures |r| == |g.outputs|
  {
    OutputValues(Formulas, Values(Formulas, g, FConst(false), Place(slots, inF, keyF), {}), g.outputs)
  }

  /** Test vectors whose widths fit the design. */
  predicate TestsFit(g: Aig, slots: seq<Slot>, tin: seq<seq<bool>>, tout: seq<seq<bool>>)
  {
    |tin| == |tout| && forall i :: 0 <= i < |tin| ==> DataCount(slots) <= |tin[i]| && |tout[i]| == |g.outputs|
  }

  /** One vec_eq per test vector: the outputs under the key formulas equal the recorded outputs. */
  function KeyConstraints(g: Aig, slots: seq<Slot>, tin: seq<seq<bool>>, tout: seq<seq<bool>>, keyF: seq<Formula>): (cs: seq<Formula>)
    requires DesignShape(g, slots, |keyF|) && TestsFit(g, slots, tin, tout)
    ensures |cs| == |tin|
  {
    seq(|tin|, i requires 0 <= i < |tin| => VecEq(EncodeOutputs(g, slots, Consts(tin[i]), keyF), Consts(tout[i])))
  }

  /** The constraint of one test vector holds exactly when the assigned key reproduces its outputs. */
  lemma KeyConstraintAt(g: Aig, slots: seq<Slot>, x: seq<bool>, y: seq<bool>, keyF: seq<Formula>, env: seq<bool>)
    requires DesignShape(g, slots, |keyF|) && DataCount(slots) <= |x| && |y| == |g.outputs|
    ensures Eval(env, VecEq(EncodeOutputs(g, slots, Consts(x), keyF), Consts(y)))
            <==> DesignOutputs(g, slots, x, EvalAll(env, keyF)) == y
  {
    VecEqMeaning(env, EncodeOutputs(g, slots, Consts(x), keyF), Consts(y));
    OutputsAgreeWithSimulation(g, slots, Consts(x), keyF, env);
    ConstsEval(env, x);
    ConstsEval(env, y);
  }

  /** An assignment satisfies the key constraints exactly when the key it gives passes every test vector. */
  lemma KeyConstraintsMeaning(g: Aig, slots: seq<Slot>, tin: seq<seq<bool>>, tout: seq<seq<bool>>, keyF: seq<Formula>, env: seq<bool>)
    requires DesignShape(g, slots, |keyF|) && TestsFit(g, slots, tin, tout)
    ensures Satisfies(env, KeyConstraints(g, slots, tin, tout, keyF)) <==> PassesOn(g, slots, tin, tout, EvalAll(env, keyF))
  {
    var cs := KeyConstraints(g, slots, tin, tout, keyF);
    forall i | 0 <= i < |tin|
      ensures Eval(env, cs[i]) <==> DesignOutputs(g, slots, tin[i], EvalAll(env, keyF)) == tout[i]
    {
      KeyConstraintAt(g, slots, tin[i], tout[i], keyF, env);
    }
  }

  lemma FormulasOps(x: Formula, y: Formula)
    ensures Formulas.and(x, y) == FAnd(x, y) && Formulas.not(x) == FNot(x)
  {}

  /** The constant slot and the input slots of the formula simulation are CONST_FALSE and the input formulas. */
  lemma InputFormulas(g: Aig, placed: seq<Formula>)
    requires Acyclic(g) && |placed| == g.nbInputs
    ensures forall v :: 0 <= v < |placed| + 1 ==> ([FConst(false)] + placed)[v] == NodeValue(Formulas, g, FConst(false), placed, {}, v)
  {}

  /** The formula of node j is the AND of its fanins' formulas, each complemented when its literal is inverted. */
  lemma NodeFormula(g: Aig, placed: seq<Formula>, lits: seq<Formula>, j: nat)
    requires Acyclic(g) && |placed| == g.nbInputs && j < |g.nodes| && |lits| == g.nbInputs + 1 + j
    requires forall v :: 0 <= v < |lits| ==> lits[v] == NodeValue(Formulas, g, FConst(false), placed, {}, v)
    ensures var n := g.nodes[j];
      n.a.variable < |lits| && n.b.variable < |lits|
      && NodeValue(Formulas, g, FConst(false), placed, {}, |lits|)
         == FAnd(if n.a.polarity then FNot(lits[n.a.variable]) else lits[n.a.variable],
                 if n.b.polarity then FNot(lits[n.b.variable]) else lits[n.b.variable])
  {
    var n := g.nodes[j];
    FormulasOps(lits[n.a.variable], lits[n.b.variable]);
    var x := Complement(Formulas, lits[n.a.variable], n.a.polarity);
    var y := Complement(Formulas, lits[n.b.variable], n.b.polarity);
    FormulasOps(x, y);
  }

  /** Appending node j's formula keeps the formula list equal to the formula simulation, one variable further. */
  lemma NodeFormulaSnoc(g: Aig, placed: seq<Formula>, lits: seq<Formula>, j: nat)
    requires Acyclic(g) && |placed| == g.nbInputs && j < |g.nodes| && |lits| == g.nbInputs + 1 + j
    requires forall v :: 0 <= v < |lits| ==> lits[v] == NodeValue(Formulas, g, FConst(false), placed, {}, v)
    ensures var n := g.nodes[j];
      n.a.variable < |lits| && n.b.variable < |lits|
      && var next := lits + [FAnd(if n.a.polarity then FNot(lits[n.a.variable]) else lits[n.a.variable],
                                   if n.b.polarity then FNot(lits[n.b.variable]) else lits[n.b.variable])];
         forall v :: 0 <= v < |next| ==> next[v] == NodeValue(Formulas, g, FConst(false), placed, {}, v)
  {
    NodeFormula(g, placed, lits, j);
    var n := g.nodes[j];
    var f := FAnd(if n.a.polarity then FNot(lits[n.a.variable]) else lits[n.a.variable],
                  if n.b.polarity then FNot(lits[n.b.variable]) else lits[n.b.variable]);
    var next := lits + [f];
    forall v | 0 <= v < |next|
      ensures next[v] == NodeValue(Formulas, g, FConst(false), placed, {}, v)
    {
      assert next[v] == if v < |lits| then lits[v] else f;
    }
  }

  /** A formula list that agrees with the formula simulation on every variable is that simulation. */
  lemma FormulaValues(g: Aig, placed: seq<Formula>, lits: seq<Formula>)
    requires Acyclic(g) && |placed| == g.nbInputs && |lits| == g.NbVars()
    requires forall v :: 0 <= v < |lits| ==> lits[v] == NodeValue(Formulas, g, FConst(false), placed, {}, v)
    ensures lits == Values(Formulas, g, FConst(false), placed, {})
  {}

  /** vec_ne of the outputs under two keys holds exactly when the assigned keys give different outputs on the assigned inputs. */
  lemma DistinguishMeaning(g: Aig, slots: seq<Slot>, inF: seq<Formula>, k1F: seq<Formula>, k2F: seq<Formula>, env: seq<bool>)
    requires DesignShape(g, slots, |k1F|) && |k2F| == |k1F| && DataCount(slots) <= |inF|
    ensures Eval(env, VecNe(EncodeOutputs(g, slots, inF, k1F), EncodeOutputs(g, slots, inF, k2F)))
            <==> DesignOutputs(g, slots, EvalAll(env, inF), EvalAll(env, k1F)) != DesignOutputs(g, slots, EvalAll(env, inF), EvalAll(env, k2F))
  {
    VecEqMeaning(env, EncodeOutputs(g, slots, inF, k1F), EncodeOutputs(g, slots, inF, k2F));
    OutputsAgreeWithSimulation(g, slots, inF, k1F, env);
    OutputsAgreeWithSimulation(g, slots, inF, k2F, env);
  }

  /** Consecutive blocks of fresh variables read consecutive slices of the assignment. */
  lemma VarsSplit(env: seq<bool>, n: nat, m: nat)
    requires |env| == n + m
    ensures EvalAll(env, Vars(0, n)) == env[..n] && EvalAll(env, Vars(n, m)) == env[n..]
    ensures EvalAll(env, Vars(0, n) + Vars(n, m)) == env
  {
    VarsEval(env, 0, n);
    VarsEval(env, n, m);
    assert Vars(0, n) + Vars(n, m) == Vars(0, n + m);
    VarsEval(env, 0, n + m);
  }

  /*
   * The three queries of the attack, with their variables laid out as the
   * source creates them: key bits first, then (for the DI queries) a
   * second key, then the data inputs.
   */

  /** findNewValidKey's formulas: the key constraints on variables 0 .. n-1. */
  function KeyQuery(g: Aig, slots: seq<Slot>, tin: seq<seq<bool>>, tout: seq<seq<bool>>, n: nat): seq<Formula>
    requires DesignShape(g, slots, n) && TestsFit(g, slots, tin, tout)
  {
    KeyConstraints(g, slots, tin, tout, Vars(0, n))
  }

  lemma KeyQueryMeaning(g: Aig, slots: seq<Slot>, tin: seq<seq<bool>>, tout: seq<seq<bool>>, n: nat, env: seq<bool>)
    requires DesignShape(g, slots, n) && TestsFit(g, slots, tin, tout) && |env| == n
    ensures Satisfies(env, KeyQuery(g, slots, tin, tout, n)) <==> PassesOn(g, slots, tin, tout, env)
    ensures EvalAll(env, Vars(0, n)) == env
  {
    KeyBlockMeaning(g, slots, tin, tout, 0, n, env);
    assert env[0..n] == env;
  }

  /** The key constraints on the block of variables first .. first+n-1 hold exactly when that slice of the assignment passes the vectors. */
  lemma KeyBlockMeaning(g: Aig, slots: seq<Slot>, tin: seq<seq<bool>>, tout: seq<seq<bool>>, first: nat, n: nat, env: seq<bool>)
    requires DesignShape(g, slots, n) && TestsFit(g, slots, tin, tout) && first + n <= |env|
    ensures Satisfies(env, KeyConstraints(g, slots, tin, tout, Vars(first, n))) <==> PassesOn(g, slots, tin, tout, env[first..first + n])
    ensures EvalAll(env, Vars(first, n)) == env[first..first + n]
  {
    VarsEval(env, first, n);
    KeyConstraintsMeaning(g, slots, tin, tout, Vars(first, n), env);
  }

  /** The outputs of two keys differ on the inputs block exactly when vec_ne of their output formulas holds. */
  lemma DistinguishBlocks(g: Aig, slots: seq<Slot>, inF: seq<Formula>, k1F: seq<Formula>, k2F: seq<Formula>, env: seq<bool>,
                          x: seq<bool>, k1: seq<bool>, k2: seq<bool>)
    requires DesignShape(g, slots, |k1F|) && |k2F| == |k1F| && DataCount(slots) <= |inF|
    requires EvalAll(env, inF) == x && EvalAll(env, k1F) == k1 && EvalAll(env, k2F) == k2
    ensures Eval(env, VecNe(EncodeOutputs(g, slots, inF, k1F), EncodeOutputs(g, slots, inF, k2F)))
            <==> DesignOutputs(g, slots, x, k1) != DesignOutputs(g, slots, x, k2)
  {
    DistinguishMeaning(g, slots, inF, k1F, k2F, env);
  }

  lemma SatisfiesSnoc(env: seq<bool>, cs: seq<Formula>, f: Formula)
    ensures Satisfies(env, cs + [f]) <==> Satisfies(env, cs) && Eval(env, f)
  {
    SatisfiesAppend(env, cs, [f]);
    assert [f][0] == f;
  }

  /** No assignment satisfies the key query exactly when no key passes the vectors. */
  lemma UnsatMeansNoKey(g: Aig, slots: seq<Slot>, tin: seq<seq<bool>>, tout: seq<seq<bool>>, n: nat)
    requires DesignShape(g, slots, n) && TestsFit(g, slots, tin, tout)
    requires forall e: seq<bool> :: |e| == n ==> !Satisfies(e, KeyQuery(g, slots, tin, tout, n))
    ensures forall k: seq<bool> :: |k| == n ==> !PassesOn(g, slots, tin, tout, k)
  {
    forall k: seq<bool> | |k| == n
      ensures !PassesOn(g, slots, tin, tout, k)
    {
      KeyQueryMeaning(g, slots, tin, tout, n, k);
    }
  }

  /** findDIFromBestKey's formulas: a consistent key whose outputs on the inputs differ from those of `other`. */
  function DIFromKeyQuery(g: Aig, slots: seq<Slot>, tin: seq<seq<bool>>, tout: seq<seq<bool>>, n: nat, m: nat, other: seq<bool>): seq<Formula>
    requires DesignShape(g, slots, n) && TestsFit(g, slots, tin, tout) && DataCount(slots) <= m && |other| == n
  {
    KeyConstraints(g, slots, tin, tout, Vars(0, n))
    + [VecNe(EncodeOutputs(g, slots, Vars(n, m), Vars(0, n)), EncodeOutputs(g, slots, Vars(n, m), Consts(other)))]
  }

  lemma DIFromKeyQueryMeaning(g: Aig, slots: seq<Slot>, tin: seq<seq<bool>>, tout: seq<seq<bool>>, n: nat, m: nat, other: seq<bool>, env: seq<bool>)
    requires DesignShape(g, slots, n) && TestsFit(g, slots, tin, tout) && DataCount(slots) <= m && |other| == n
    requires |env| == n + m
    ensures Satisfies(env, DIFromKeyQuery(g, slots, tin, tout, n, m, other))
            <==> PassesOn(g, slots, tin, tout, env[..n])
                 && DesignOutputs(g, slots, env[n..], env[..n]) != DesignOutputs(g, slots, env[n..], other)
    ensures EvalAll(env, Vars(0, n) + Vars(n, m)) == env
  {
    VarsSplit(env, n, m);
    var c := KeyConstraints(g, slots, tin, tout, Vars(0, n));
    KeyBlockMeaning(g, slots, tin, tout, 0, n, env);
    assert env[0..n] == env[..n];
    ConstsEval(env, other);
    DistinguishBlocks(g, slots, Vars(n, m), Vars(0, n), Consts(other), env, env[n..], env[..n], other);
    SatisfiesSnoc(env, c, VecNe(EncodeOutputs(g, slots, Vars(n, m), Vars(0, n)), EncodeOutputs(g, slots, Vars(n, m), Consts(other))));
  }

  lemma UnsatMeansNoDIFromKey(g: Aig, slots: seq<Slot>, tin: seq<seq<bool>>, tout: seq<seq<bool>>, n: nat, m: nat, other: seq<bool>)
    requires DesignShape(g, slots, n) && TestsFit(g, slots, tin, tout) && DataCount(slots) <= m && |other| == n
    requires forall e: seq<bool> :: |e| == n + m ==> !Satisfies(e, DIFromKeyQuery(g, slots, tin, tout, n, m, other))
    ensures forall k: seq<bool>, x: seq<bool> :: |k| == n && |x| == m && PassesOn(g, slots, tin, tout, k)
              ==> DesignOutputs(g, slots, x, k) == DesignOutputs(g, slots, x, other)
  {
    forall k: seq<bool>, x: seq<bool> | |k| == n && |x| == m && PassesOn(g, slots, tin, tout, k)
      ensures DesignOutputs(g, slots, x, k) == DesignOutputs(g, slots, x, other)
    {
      assert (k + x)[..n] == k && (k + x)[n..] == x;
      DIFromKeyQueryMeaning(g, slots, tin, tout, n, m, other, k + x);
    }
  }

  /** findDI's formulas: two consistent keys whose outputs on the inputs differ. */
  function DIQuery(g: Aig, slots: seq<Slot>, tin: seq<seq<bool>>, tout: seq<seq<bool>>, n: nat, m: nat): seq<Formula>
    requires DesignShape(g, slots, n) && TestsFit(g, slots, tin, tout) && DataCount(slots) <= m
  {
    KeyConstraints(g, slots, tin, tout, Vars(0, n)) + KeyConstraints(g, slots, tin, tout, Vars(n, n))
    + [VecNe(EncodeOutputs(g, slots, Vars(2 * n, m), Vars(0, n)), EncodeOutputs(g, slots, Vars(2 * n, m), Vars(n, n)))]
  }

  lemma ThreeBlocks(env: seq<bool>, n: nat, m: nat)
    requires |env| == 2 * n + m
    ensures EvalAll(env, Vars(0, n)) == env[..n] && EvalAll(env, Vars(n, n)) == env[n..2 * n]
    ensures EvalAll(env, Vars(2 * n, m)) == env[2 * n..]
    ensures EvalAll(env, Vars(0, n) + Vars(n, n) + Vars(2 * n, m)) == env
  {
    VarsEval(env, 0, n);
    VarsEval(env, n, n);
    VarsEval(env, 2 * n, m);
    assert Vars(0, n) + Vars(n, n) + Vars(2 * n, m) == Vars(0, 2 * n + m);
    VarsEval(env, 0, 2 * n + m);
  }

  lemma DIQueryMeaning(g: Aig, slots: seq<Slot>, tin: seq<seq<bool>>, tout: seq<seq<bool>>, n: nat, m: nat, env: seq<bool>)
    requires DesignShape(g, slots, n) && TestsFit(g, slots, tin, tout) && DataCount(slots) <= m
    requires |env| == 2 * n + m
    ensures Satisfies(env, DIQuery(g, slots, tin, tout, n, m))
            <==> PassesOn(g, slots, tin, tout, env[..n]) && PassesOn(g, slots, tin, tout, env[n..2 * n])
                 && DesignOutputs(g, slots, env[2 * n..], env[..n]) != DesignOutputs(g, slots, env[2 * n..], env[n..2 * n])
    ensures EvalAll(env, Vars(0, n) + Vars(n, n) + Vars(2 * n, m)) == env
  {
    ThreeBlocks(env, n, m);
    var c1 := KeyConstraints(g, slots, tin, tout, Vars(0, n));
    var c2 := KeyConstraints(g, slots, tin, tout, Vars(n, n));
    KeyBlockMeaning(g, slots, tin, tout, 0, n, env);
    KeyBlockMeaning(g, slots, tin, tout, n, n, env);
    assert env[0..n] == env[..n] && env[n..n + n] == env[n..2 * n];
    DistinguishBlocks(g, slots, Vars(2 * n, m), Vars(0, n), Vars(n, n), env, env[2 * n..], env[..n], env[n..2 * n]);
    SatisfiesAppend(env, c1, c2);
    SatisfiesSnoc(env, c1 + c2, VecNe(EncodeOutputs(g, slots, Vars(2 * n, m), Vars(0, n)), EncodeOutputs(g, slots, Vars(2 * n, m), Vars(n, n))));
  }

  lemma UnsatMeansNoDI(g: Aig, slots: seq<Slot>, tin: seq<seq<bool>>, tout: seq<seq<bool>>, n: nat, m: nat)
    requires DesignShape(g, slots, n) && TestsFit(g, slots, tin, tout) && DataCount(slots) <= m
    requires forall e: seq<bool> :: |e| == 2 * n + m ==> !Satisfies(e, DIQuery(g, slots, tin, tout, n, m))
    ensures forall k1: seq<bool>, k2: seq<bool>, x: seq<bool> ::
              |k1| == n && |k2| == n && |x| == m && PassesOn(g, slots, tin, tout, k1) && PassesOn(g, slots, tin, tout, k2)
              ==> DesignOutputs(g, slots, x, k1) == DesignOutputs(g, slots, x, k2)
  {
    forall k1: seq<bool>, k2: seq<bool>, x: seq<bool>
      | |k1| == n && |k2| == n && |x| == m && PassesOn(g, slots, tin, tout, k1) && PassesOn(g, slots, tin, tout, k2)
      ensures DesignOutputs(g, slots, x, k1) == DesignOutputs(g, slots, x, k2)
    {
      NoDIOn(g, slots, tin, tout, n, m, k1, k2, x);
    }
  }

  /** With the DI query unsatisfiable, two consistent keys agree on any one input. */
  lemma NoDIOn(g: Aig, slots: seq<Slot>, tin: seq<seq<bool>>, tout: seq<seq<bool>>, n: nat, m: nat,
               k1: seq<bool>, k2: seq<bool>, x: seq<bool>)
    requires DesignShape(g, slots, n) && TestsFit(g, slots, tin, tout) && DataCount(slots) <= m
    requires |k1| == n && |k2| == n && |x| == m && PassesOn(g, slots, tin, tout, k1) && PassesOn(g, slots, tin, tout, k2)
    requires forall e: seq<bool> :: |e| == 2 * n + m ==> !Satisfies(e, DIQuery(g, slots, tin, tout, n, m))
    ensures DesignOutputs(g, slots, x, k1) == DesignOutputs(g, slots, x, k2)
  {
    var e := k1 + k2 + x;
    assert |e| == 2 * n + m;
    assert e[..n] == k1;
    assert e[n..2 * n] == k2;
    assert e[2 * n..] == x;
    DIQueryMeaning(g, slots, tin, tout, n, m, e);
  }

  /*
   * Progress of the attack: the keys consistent with the stored vectors,
   * numbered as in runBruteForce. Adding vectors never adds a key, and a
   * distinguishing input that two consistent keys disagree on removes one.
   */

  ghost function ConsistentSet(g: Aig, slots: seq<Slot>, n: nat, tin: seq<seq<bool>>, tout: seq<seq<bool>>): set<nat>
    requires DesignShape(g, slots, n)
  {
    set i: nat | i < Pow2(n) && PassesOn(g, slots, tin, tout, KeyOf(n, i))
  }

  /** A key consistent with more vectors is consistent with fewer. */
  lemma PassesOnPrefix(g: Aig, slots: seq<Slot>, tin: seq<seq<bool>>, tout: seq<seq<bool>>, xs: seq<seq<bool>>, ys: seq<seq<bool>>, k: seq<bool>)
    requires DesignShape(g, slots, |k|) && |xs| == |ys|
    requires PassesOn(g, slots, tin + xs, tout + ys, k)
    ensures PassesOn(g, slots, tin, tout, k)
  {
    forall i | 0 <= i < |tin|
      ensures DataCount(slots) <= |tin[i]| && DesignOutputs(g, slots, tin[i], k) == tout[i]
    {
      assert (tin + xs)[i] == tin[i] && (tout + ys)[i] == tout[i];
    }
  }

  /** Adding vectors never makes a key consistent. */
  lemma MoreVectorsFewerKeys(g: Aig, slots: seq<Slot>, n: nat, tin: seq<seq<bool>>, tout: seq<seq<bool>>, xs: seq<seq<bool>>, ys: seq<seq<bool>>)
    requires DesignShape(g, slots, n) && |xs| == |ys|
    ensures ConsistentSet(g, slots, n, tin + xs, tout + ys) <= ConsistentSet(g, slots, n, tin, tout)
    ensures |ConsistentSet(g, slots, n, tin + xs, tout + ys)| <= |ConsistentSet(g, slots, n, tin, tout)|
  {
    forall i | i in ConsistentSet(g, slots, n, tin + xs, tout + ys)
      ensures i in ConsistentSet(g, slots, n, tin, tout)
    {
      PassesOnPrefix(g, slots, tin, tout, xs, ys, KeyOf(n, i));
    }
    SubsetSmaller(ConsistentSet(g, slots, n, tin + xs, tout + ys), ConsistentSet(g, slots, n, tin, tout));
  }

  /** The same for a store that only grew: the old store is a prefix of the new one. */
  lemma GrownStoreFewerKeys(g: Aig, slots: seq<Slot>, n: nat, tin: seq<seq<bool>>, tout: seq<seq<bool>>, tin2: seq<seq<bool>>, tout2: seq<seq<bool>>)
    requires DesignShape(g, slots, n) && |tin| == |tout| && |tin2| == |tout2|
    requires |tin| <= |tin2| && tin2[..|tin|] == tin && tout2[..|tout|] == tout
    ensures |ConsistentSet(g, slots, n, tin2, tout2)| <= |ConsistentSet(g, slots, n, tin, tout)|
  {
    assert tin2 == tin + tin2[|tin|..];
    assert tout2 == tout + tout2[|tout|..];
    MoreVectorsFewerKeys(g, slots, n, tin, tout, tin2[|tin|..], tout2[|tout|..]);
  }

  lemma {:induction false} SubsetSmaller<T>(a: set<T>, b: set<T>)
    requires a <= b
    ensures |a| <= |b|
    decreases |b|
  {
    if a != {} {
      var e :| e in a;
      SubsetSmaller(a - {e}, b - {e});
    }
  }

  /**
   * A distinguishing vector removes a key: when two keys consistent with
   * the stored vectors give different outputs on x, at most one of them
   * reproduces the oracle's answer y, so the consistent set shrinks.
   */
  lemma DistinguishingVectorShrinks(g: Aig, slots: seq<Slot>, n: nat, tin: seq<seq<bool>>, tout: seq<seq<bool>>,
                                     x: seq<bool>, y: seq<bool>, k1: seq<bool>, k2: seq<bool>)
    requires DesignShape(g, slots, n) && DataCount(slots) <= |x| && |k1| == n && |k2| == n
    requires PassesOn(g, slots, tin, tout, k1) && PassesOn(g, slots, tin, tout, k2)
    requires DesignOutputs(g, slots, x, k1) != DesignOutputs(g, slots, x, k2)
    ensures |ConsistentSet(g, slots, n, tin + [x], tout + [y])| < |ConsistentSet(g, slots, n, tin, tout)|
  {
    var before := ConsistentSet(g, slots, n, tin, tout);
    var after := ConsistentSet(g, slots, n, tin + [x], tout + [y]);
    MoreVectorsFewerKeys(g, slots, n, tin, tout, [x], [y]);
    var k := if DesignOutputs(g, slots, x, k1) != y then k1 else k2;
    KeyValueRoundTrip(k);
    var v := ValueOf(k);
    assert v in before;
    assert (tin + [x])[|tin|] == x && (tout + [y])[|tin|] == y;
    assert v !in after;
    SubsetSmaller(after, before - {v});
  }

  /** How many times a C++ `for (int i = 0; i < n; i++)` loop runs. */
  function Count(n: int): (c: nat)
    ensures n <= 0 ==> c == 0
    ensures n > 0 ==> c == n
  {
    if n <= 0 then 0 else n
  }

  /** Taking m elements of a longer sequence adds the new element only while fewer than m were taken. */
  lemma TakeSnoc<T>(s: seq<T>, x: T, m: int)
    ensures Take(s + [x], m) == if |s| < m then Take(s, m) + [x] else Take(s, m)
  {
    if |s| >= m && m > 0 {
      assert (s + [x])[..m] == s[..m];
    }
  }

  /** The design disagrees with the oracle on x when unlocked with this key. */
  predicate Fails(g: Aig, slots: seq<Slot>, x: seq<bool>, key: seq<bool>, expectedKey: seq<bool>)
    requires DesignShape(g, slots, |key|) && |expectedKey| == |key| && DataCount(slots) <= |x|
  {
    DesignOutputs(g, slots, x, key) != DesignOutputs(g, slots, x, expectedKey)
  }

  /** The design under the key is wrong on x (false for a vector too short to simulate). */
  predicate Wrong(g: Aig, slots: seq<Slot>, key: seq<bool>, expectedKey: seq<bool>, x: seq<bool>)
  {
    DesignShape(g, slots, |key|) && |expectedKey| == |key| && DataCount(slots) <= |x| && Fails(g, slots, x, key, expectedKey)
  }

  /**
   * The drawn vectors from..from+n-1 on which the key is wrong, in draw
   * order (measureErrorAndConstrain's failing vectors).
   */
  function FailingDrawn(g: Aig, slots: seq<Slot>, key: seq<bool>, expectedKey: seq<bool>, draw: nat -> seq<bool>, from: nat, n: nat): (r: seq<seq<bool>>)
    ensures |r| <= n
  {
    if n == 0 then []
    else
      var x := draw(from + n - 1);
      FailingDrawn(g, slots, key, expectedKey, draw, from, n - 1) + (if Wrong(g, slots, key, expectedKey, x) then [x] else [])
  }

  /**
   * The error rate measureErrorAndConstrain reports for the key over the n
   * vectors drawn from position from on: the failing ones over n, and 0
   * when n is not positive.
   */
  function ErrorRate(g: Aig, slots: seq<Slot>, key: seq<bool>, expectedKey: seq<bool>, draw: nat -> seq<bool>, from: nat, n: int): (e: real)
    ensures 0.0 <= e <= 1.0
    ensures e == 0.0 <==> FailingDrawn(g, slots, key, expectedKey, draw, from, Count(n)) == []
  {
    var failing := FailingDrawn(g, slots, key, expectedKey, draw, from, Count(n));
    if n <= 0 then 0.0
    else
      RatioBound(|failing|, n);
      RatioZero(|failing|, n);
      |failing| as real / n as real
  }

  /** One more drawn vector is listed exactly when the key is wrong on it. */
  lemma FailingDrawnNext(g: Aig, slots: seq<Slot>, key: seq<bool>, expectedKey: seq<bool>, draw: nat -> seq<bool>, from: nat, i: nat, x: seq<bool>)
    requires x == draw(from + i)
    ensures FailingDrawn(g, slots, key, expectedKey, draw, from, i + 1)
      == FailingDrawn(g, slots, key, expectedKey, draw, from, i) + (if Wrong(g, slots, key, expectedKey, x) then [x] else [])
  {}

  /** Every listed vector is one of the drawn ones, and the key is wrong on it. */
  lemma {:induction false} FailingDrawnAreWrong(g: Aig, slots: seq<Slot>, key: seq<bool>, expectedKey: seq<bool>, draw: nat -> seq<bool>, from: nat, n: nat)
    ensures forall j :: 0 <= j < |FailingDrawn(g, slots, key, expectedKey, draw, from, n)| ==>
      FailingDrawn(g, slots, key, expectedKey, draw, from, n)[j] in DrawnVectors(draw, from, n)
      && Wrong(g, slots, key, expectedKey, FailingDrawn(g, slots, key, expectedKey, draw, from, n)[j])
  {
    if n > 0 {
      FailingDrawnAreWrong(g, slots, key, expectedKey, draw, from, n - 1);
      var front := FailingDrawn(g, slots, key, expectedKey, draw, from, n - 1);
      var x := draw(from + n - 1);
      var r := FailingDrawn(g, slots, key, expectedKey, draw, from, n);
      var drawn := DrawnVectors(draw, from, n);
      assert r == front + (if Wrong(g, slots, key, expectedKey, x) then [x] else []);
      assert drawn == DrawnVectors(draw, from, n - 1) + [x];
      forall j | 0 <= j < |r|
        ensures r[j] in drawn && Wrong(g, slots, key, expectedKey, r[j])
      {
        if j < |front| {
          assert r[j] == front[j];
          assert front[j] in DrawnVectors(draw, from, n - 1) && Wrong(g, slots, key, expectedKey, front[j]);
        } else {
          assert r[j] == x && drawn[n - 1] == x;
        }
      }
    }
  }

  /** None is left out: the list is empty exactly when the key is right on every drawn vector. */
  lemma {:induction false} FailingDrawnEmpty(g: Aig, slots: seq<Slot>, key: seq<bool>, expectedKey: seq<bool>, draw: nat -> seq<bool>, from: nat, n: nat)
    ensures FailingDrawn(g, slots, key, expectedKey, draw, from, n) == []
      <==> forall k :: from <= k < from + n ==> !Wrong(g, slots, key, expectedKey, draw(k))
  {
    if n > 0 {
      FailingDrawnEmpty(g, slots, key, expectedKey, draw, from, n - 1);
    }
  }

  /** A count out of a positive total gives a rate between 0 and 1. */
  /** A count over a positive total is zero exactly when the count is. */
  lemma RatioZero(a: nat, b: int)
    requires 0 < b
    ensures a as real / b as real == 0.0 <==> a == 0
  {
    assert (a as real / b as real) * b as real == a as real;
  }

  lemma RatioBound(a: nat, b: int)
    requires 0 < b && a <= b
    ensures 0.0 <= a as real / b as real <= 1.0
  {
    assert a as real <= b as real;
    assert a as real / b as real <= b as real / b as real;
  }

  /** The number of trailing measurements below the threshold: runAppSat's settleCount. */
  function TrailingBelow(s: seq<real>, t: real): (c: nat)
    ensures c <= |s|
  {
    if s == [] || s[|s| - 1] >= t then 0 else 1 + TrailingBelow(s[..|s| - 1], t)
  }

  /** The last TrailingBelow(s, t) measurements are below t, and the one before them, if any, is not. */
  lemma {:induction false} TrailingBelowMeaning(s: seq<real>, t: real)
    ensures forall j :: |s| - TrailingBelow(s, t) <= j < |s| ==> s[j] < t
    ensures TrailingBelow(s, t) < |s| ==> s[|s| - 1 - TrailingBelow(s, t)] >= t
  {
    if s != [] && s[|s| - 1] < t {
      var front := s[..|s| - 1];
      TrailingBelowMeaning(front, t);
      assert forall j :: 0 <= j < |front| ==> front[j] == s[j];
    }
  }

  /** runBruteForce's inner loop: overwrite every bit j of the key with (i >> j) & 1, giving candidate i. */
  method SetKeyBits(key: seq<bool>, i: nat) returns (r: seq<bool>)
    ensures r == KeyOf(|key|, i)
  {
    r := key;
    for j := 0 to |key|
      invariant |r| == |key|
      invariant forall t :: 0 <= t < j ==> r[t] == KeyOf(|key|, i)[t]
    {
      KeyOfBit(|key|, i, j);
      r := r[j := (i / Pow2(j)) % 2 == 1];
    }
  }

  /** Every measured error rate lies between 0 and 1. */
  predicate Rates(s: seq<real>)
  {
    forall j :: 0 <= j < |s| ==> 0.0 <= s[j] <= 1.0
  }

  /** Recording one more rate: the trailing count grows by one or restarts at zero. */
  lemma MeasuredSnoc(s: seq<real>, e: real, t: real)
    requires Rates(s) && 0.0 <= e <= 1.0
    ensures Rates(s + [e])
    ensures TrailingBelow(s + [e], t) == if e < t then TrailingBelow(s, t) + 1 else 0
    ensures |s + [e]| > 0 && (s + [e])[|s + [e]| - 1] == e
  {
    assert (s + [e])[..|s|] == s;
  }

  /**
   * The scan's result: when the last hit of a scan of 0..bound-1 is
   * followed by no member, and some member exists, the last hit is the
   * largest member.
   */
  /** No member of s lies strictly between lo and hi. */
  predicate NoneBetween(s: set<nat>, lo: int, hi: int)
  {
    forall j :: lo < j < hi ==> j !in s
  }

  /** A scan step: a non-member extends the gap; a member starts a new, empty one. */
  lemma NoneBetweenStep(s: set<nat>, lo: int, hi: int)
    requires lo < hi && NoneBetween(s, lo, hi)
    ensures hi !in s ==> NoneBetween(s, lo, hi + 1)
    ensures NoneBetween(s, hi, hi + 1)
  {
  }

  lemma LastIsLargest(s: set<nat>, bound: nat, last: int, v: nat)
    requires forall j :: j in s ==> j < bound
    requires NoneBetween(s, last, bound)
    requires last >= 0 ==> last in s
    requires v in s
    ensures last >= 0 && forall j :: j in s ==> j <= last
  {
  }

  /*
   * runBruteForce's loop bound as written: (1 << nbKeyBits) on a 32-bit
   * int. For 31 key bits the shifted 1 lands in the sign bit, the bound is
   * negative (INT_MIN on two's-complement targets) and no candidate is
   * tried, although the width check lets 31 bits through.
   */

  /** A number as a 32-bit two's-complement int. */
  function Int32(v: int): (r: int)
    ensures -0x8000_0000 <= r < 0x8000_0000
    ensures (r - v) % 0x1_0000_0000 == 0
  {
    var m := v % 0x1_0000_0000;
    if m >= 0x8000_0000 then m - 0x1_0000_0000 else m
  }

  lemma {:induction false} Pow2Add(a: nat, b: nat)
    ensures Pow2(a + b) == Pow2(a) * Pow2(b)
  {
    if b > 0 {
      Pow2Add(a, b - 1);
      assert Pow2(a + b) == 2 * Pow2(a + b - 1);
    }
  }

  lemma {:induction false} Pow2Monotone(a: nat, b: nat)
    requires a <= b
    ensures Pow2(a) <= Pow2(b)
  {
    if a < b {
      Pow2Monotone(a, b - 1);
    }
  }

  lemma Pow2At30()
    ensures Pow2(30) == 0x4000_0000
  {
    assert Pow2(5) == 32 by {
      assert Pow2(1) == 2 && Pow2(2) == 4 && Pow2(3) == 8 && Pow2(4) == 16;
    }
    Pow2Add(5, 5);
    Pow2Add(10, 10);
    Pow2Add(20, 10);
  }

  /** The loop bound (1 << n) as the source computes it, for the widths its check lets through. */
  function CandidateCountAsWritten(n: nat): int
    requires n < 32
  {
    Int32(Pow2(n))
  }

  /** Below 31 key bits the bound as written is the number of keys. */
  lemma CandidateCountBelow31(n: nat)
    requires n < 31
    ensures CandidateCountAsWritten(n) == Pow2(n)
  {
    Pow2Monotone(n, 30);
    Pow2At30();
    assert Pow2(n) % 0x1_0000_0000 == Pow2(n);
  }

  /** With 31 key bits the bound as written is negative: the loop tries none of the 2^31 keys. */
  lemma CandidateCountAt31()
    ensures CandidateCountAsWritten(31) < 0
    ensures Count(CandidateCountAsWritten(31)) == 0 && Pow2(31) > 0
  {
    Pow2At30();
    assert Pow2(31) == 0x8000_0000;
    assert Pow2(31) % 0x1_0000_0000 == 0x8000_0000;
  }

  /*
   * runAppSat's exact stop can report a stale key: the best key is key1 of
   * the last distinguishing input, which the stored answer to that input
   * may rule out. A one-gate design shows it.
   */

  /** A one-gate locked design: the only output is the data input AND the key bit. */
  const AndLock := Aig(2, [AigNode(Lit(1, false), Lit(2, false))], [Lit(3, false)])
  const AndLockSlots := [DataBit, KeyBit(0)]

  lemma AndLockOutputs(a: bool, b: bool)
    ensures DesignShape(AndLock, AndLockSlots, 1) && DataCount(AndLockSlots) == 1
    ensures DesignOutputs(AndLock, AndLockSlots, [a], [b]) == [a && b]
  {
    assert DataCount(AndLockSlots) == 1 by {
      assert AndLockSlots[..1] == [DataBit];
    }
    var front := AndLockSlots[..1];
    assert front == [DataBit] && front[..0] == [];
    assert DataCount(front) == 1;
    assert Place(front, [a], [b]) == [a];
    var ins := Place(AndLockSlots, [a], [b]);
    assert ins == [a, b];
    assert NodeValue(Bits, AndLock, false, ins, {}, 3) == (a && b);
  }

  /**
   * With expected key [false] and an empty store, keys [true] and [false]
   * are both consistent and disagree on input [true]: findDI may return
   * key1 = [true], which runAppSat keeps as its best key. Once the
   * oracle's answer to [true] is stored, [true] is no longer consistent,
   * yet no distinguishing input is left, so runAppSat stops "exactly" with
   * a best key that fails the stored vectors.
   */
  lemma AppSatStaleKeyExample()
    ensures DesignShape(AndLock, AndLockSlots, 1) && DataCount(AndLockSlots) == 1
    ensures PassesOn(AndLock, AndLockSlots, [], [], [true]) && PassesOn(AndLock, AndLockSlots, [], [], [false])
    ensures DesignOutputs(AndLock, AndLockSlots, [true], [true]) != DesignOutputs(AndLock, AndLockSlots, [true], [false])
    ensures var y := DesignOutputs(AndLock, AndLockSlots, [true], [false]);
      !PassesOn(AndLock, AndLockSlots, [[true]], [y], [true])
      && forall k1: seq<bool>, k2: seq<bool>, z: seq<bool> ::
        |k1| == 1 && |k2| == 1 && |z| == 1 && PassesOn(AndLock, AndLockSlots, [[true]], [y], k1) && PassesOn(AndLock, AndLockSlots, [[true]], [y], k2)
        ==> DesignOutputs(AndLock, AndLockSlots, z, k1) == DesignOutputs(AndLock, AndLockSlots, z, k2)
  {
    AndLockOutputs(true, true);
    AndLockOutputs(true, false);
    var y := DesignOutputs(AndLock, AndLockSlots, [true], [false]);
    forall k: seq<bool> | |k| == 1 && PassesOn(AndLock, AndLockSlots, [[true]], [y], k)
      ensures k == [false]
    {
      assert k == [k[0]];
      AndLockOutputs(true, k[0]);
      assert [[true]][0] == [true];
      assert DesignOutputs(AndLock, AndLockSlots, [true], k) == y;
      assert y == [false];
    }
  }

  /** The constructor's error for a key shorter than the key port. */
  function KeyTooShortMessage(given: int, nbKeyBits: int): string
  {
    "Given key has " + Decimal(given) + " bits, but the module has " + Decimal(nbKeyBits) + " key bits"
  }

  /** runBruteForce's error from 32 key bits on. */
  function BruteForceTooWideMessage(nbKeyBits: int): string
  {
    "Cannot run brute force attack on " + Decimal(nbKeyBits) + " key bits"
  }

  /** The attack state (class SatAttack). */
  class SatAttack {
    /** The locked design as an AIG, and where each of its inputs gets its value. */
    const g: Aig
    const slots: seq<Slot>
    const nbKeyBits: nat
    const nbInputs: nat
    /** The correct key: the oracle is the design under this key. */
    const expectedKey: seq<bool>

    /** The test vectors and the oracle's answer to each. */
    var testInputs: seq<seq<bool>>
    var testOutputs: seq<seq<bool>>
    var bestKey: seq<bool>
    var keyFound: bool
    /** How many vectors have been drawn from the random source. */
    var drawn: nat

    /** The facts about the design the attack relies on. */
    predicate Layout()
    {
      DesignShape(g, slots, nbKeyBits) && DataCount(slots) == nbInputs && |expectedKey| == nbKeyBits
    }

    /** callDesign: the design's outputs for these inputs under this key. */
    function Outputs(inputs: seq<bool>, key: seq<bool>): (r: seq<bool>)
      requires Layout() && |inputs| == nbInputs && |key| == nbKeyBits
      ensures |r| == |g.outputs|
    {
      DesignOutputs(g, slots, inputs, key)
    }

    /** callOracle: the design's outputs under the expected key. */
    function Oracle(inputs: seq<bool>): (r: seq<bool>)
      requires Layout() && |inputs| == nbInputs
      ensures |r| == |g.outputs|
    {
      Outputs(inputs, expectedKey)
    }

    /** Every stored vector has the data-input width and carries the oracle's answer. */
    ghost predicate Valid()
      reads this`testInputs, this`testOutputs
    {
      Layout() && |testInputs| == |testOutputs|
      && forall i :: 0 <= i < |testInputs| ==> |testInputs[i]| == nbInputs && testOutputs[i] == Oracle(testInputs[i])
    }

    /** The key is consistent with every stored test vector. */
    ghost predicate Passes(key: seq<bool>)
      reads this`testInputs, this`testOutputs
      requires Layout() && |key| == nbKeyBits
    {
      PassesOn(g, slots, testInputs, testOutputs, key)
    }

    /** The key makes the design behave as the oracle on every input. */
    ghost predicate Unlocks(key: seq<bool>)
      requires Layout() && |key| == nbKeyBits
    {
      forall x: seq<bool> :: |x| == nbInputs ==> Outputs(x, key) == Oracle(x)
    }

    /** The numbers of the keys consistent with the stored vectors. */
    ghost function ConsistentKeys(): (s: set<nat>)
      reads this`testInputs, this`testOutputs
      requires Layout()
    {
      ConsistentSet(g, slots, nbKeyBits, testInputs, testOutputs)
    }

    /** The random source yields vectors of the data-input width. */
    ghost predicate Draws(draw: nat -> seq<bool>)
    {
      forall k: nat :: |draw(k)| == nbInputs
    }

    /**
     * The constructor: a given key shorter than the key port is refused
     * (Create); a longer one is cut to the key port's width. The data
     * inputs are the combinational inputs that are not key bits.
     */
    constructor (g: Aig, slots: seq<Slot>, nbKeyBits: nat, key: seq<bool>)
      requires DesignShape(g, slots, nbKeyBits) && DataCount(slots) + nbKeyBits == |slots|
      requires |key| >= nbKeyBits
      ensures this.g == g && this.slots == slots && this.nbKeyBits == nbKeyBits
      ensures nbInputs == |slots| - nbKeyBits && expectedKey == key[..nbKeyBits]
      ensures testInputs == [] && testOutputs == [] && bestKey == [] && !keyFound && drawn == 0
      ensures Valid()
    {
      this.g := g;
      this.slots := slots;
      this.nbKeyBits := nbKeyBits;
      nbInputs := |slots| - nbKeyBits;
      expectedKey := key[..nbKeyBits];
      testInputs := [];
      testOutputs := [];
      bestKey := [];
      keyFound := false;
      drawn := 0;
    }

    /** toAigInputs: the value of every combinational input. */
    method ToAigInputs(inputs: seq<bool>, key: seq<bool>) returns (aigInputs: seq<bool>)
      requires Layout() && |inputs| == nbInputs && |key| == nbKeyBits
      ensures aigInputs == Place(slots, inputs, key)
    {
      aigInputs := PlaceInputs(slots, inputs, key);
    }

    /** callDesign: simulate the design on the placed inputs. */
    method CallDesign(inputs: seq<bool>, key: seq<bool>) returns (outputs: seq<bool>)
      requires Layout() && |inputs| == nbInputs && |key| == nbKeyBits
      ensures outputs == Outputs(inputs, key)
    {
      var aigInputs := ToAigInputs(inputs, key);
      outputs := EvalBool(g, aigInputs);
    }

    /** genInputVector: the next vector of the random source. */
    method GenInputVector(draw: nat -> seq<bool>) returns (inputs: seq<bool>)
      requires Draws(draw)
      modifies this`drawn
      ensures inputs == draw(old(drawn)) && |inputs| == nbInputs && drawn == old(drawn) + 1
    {
      inputs := draw(drawn);
      drawn := drawn + 1;
    }

    /** addTestVector: store one vector with the oracle's answer. */
    method AddTestVector(inputs: seq<bool>)
      requires Valid() && |inputs| == nbInputs
      modifies this
      ensures Valid()
      ensures testInputs == old(testInputs) + [inputs] && testOutputs == old(testOutputs) + [Oracle(inputs)]
      ensures bestKey == old(bestKey) && keyFound == old(keyFound) && drawn == old(drawn)
    {
      var outputs := CallDesign(inputs, expectedKey);
      testInputs := testInputs + [inputs];
      testOutputs := testOutputs + [outputs];
    }

    /** keyPassesTests: the key reproduces every stored answer. */
    method KeyPassesTests(key: seq<bool>) returns (r: bool)
      requires Valid() && |key| == nbKeyBits
      ensures r == Passes(key)
    {
      for i := 0 to |testInputs|
        invariant forall j :: 0 <= j < i ==> Outputs(testInputs[j], key) == testOutputs[j]
      {
        var outputs := CallDesign(testInputs[i], key);
        if outputs != testOutputs[i] {
          return false;
        }
      }
      return true;
    }

    /** aigToSat: CONST_FALSE, the placed input and key formulas, then one AND formula per node. */
    method AigToSat(inputLits: seq<Formula>, keyLits: seq<Formula>) returns (aigLits: seq<Formula>)
      requires Layout() && |inputLits| == nbInputs && |keyLits| == nbKeyBits
      ensures aigLits == Values(Formulas, g, FConst(false), Place(slots, inputLits, keyLits), {})
    {
      var placed := PlaceInputs(slots, inputLits, keyLits);
      aigLits := [FConst(false)] + placed;
      InputFormulas(g, placed);
      for j := 0 to |g.nodes|
        invariant |aigLits| == g.nbInputs + 1 + j
        invariant forall v :: 0 <= v < |aigLits| ==> aigLits[v] == NodeValue(Formulas, g, FConst(false), placed, {}, v)
      {
        var n := g.nodes[j];
        NodeFormulaSnoc(g, placed, aigLits, j);
        var aLit := if n.a.polarity then FNot(aigLits[n.a.variable]) else aigLits[n.a.variable];
        var bLit := if n.b.polarity then FNot(aigLits[n.b.variable]) else aigLits[n.b.variable];
        aigLits := aigLits + [FAnd(aLit, bLit)];
      }
      FormulaValues(g, placed, aigLits);
    }

    /** extractOutputs: each output's formula, complemented for an inverted output literal. */
    method ExtractOutputs(aigLits: seq<Formula>) returns (outputLits: seq<Formula>)
      requires Layout() && |aigLits| == g.NbVars()
      ensures outputLits == OutputValues(Formulas, aigLits, g.outputs)
    {
      outputLits := [];
      for j := 0 to |g.outputs|
        invariant |outputLits| == j
        invariant forall o :: 0 <= o < j ==> outputLits[o] == LitValue(Formulas, aigLits, g.outputs[o])
      {
        var out := g.outputs[j];
        FormulasOps(aigLits[out.variable], aigLits[out.variable]);
        outputLits := outputLits + [if out.polarity then FNot(aigLits[out.variable]) else aigLits[out.variable]];
      }
    }

    /** The constraints forceKeyCorrect asserts: on every stored vector, the outputs under keyLits equal the recorded ones. */
    ghost function KeyCorrect(keyLits: seq<Formula>): (cs: seq<Formula>)
      reads this`testInputs, this`testOutputs
      requires Valid() && |keyLits| == nbKeyBits
      ensures |cs| == |testInputs|
    {
      KeyConstraints(g, slots, testInputs, testOutputs, keyLits)
    }

    /** An assignment satisfies forceKeyCorrect's constraints exactly when the key it gives passes every stored vector. */
    lemma KeyCorrectMeaning(keyLits: seq<Formula>, env: seq<bool>)
      requires Valid() && |keyLits| == nbKeyBits
      ensures Satisfies(env, KeyCorrect(keyLits)) <==> Passes(EvalAll(env, keyLits))
    {
      KeyConstraintsMeaning(g, slots, testInputs, testOutputs, keyLits, env);
    }

    /** forceKeyCorrect: assert, for every stored vector, that the design under keyLits gives the recorded outputs. */
    method ForceKeyCorrect(sat: EzSat, keyLits: seq<Formula>)
      requires Valid() && |keyLits| == nbKeyBits
      modifies sat
      ensures sat.assumed == old(sat.assumed) + KeyCorrect(keyLits) && sat.nbVars == old(sat.nbVars)
    {
      ghost var cs := KeyCorrect(keyLits);
      for i := 0 to |testInputs|
        invariant sat.assumed == old(sat.assumed) + cs[..i] && sat.nbVars == old(sat.nbVars)
      {
        var inputLits := Consts(testInputs[i]);
        var expectedLits := Consts(testOutputs[i]);
        var aigLits := AigToSat(inputLits, keyLits);
        var outputLits := ExtractOutputs(aigLits);
        assert VecEq(outputLits, expectedLits) == cs[i];
        sat.Assume(VecEq(outputLits, expectedLits));
        assert cs[..i + 1] == cs[..i] + [cs[i]];
      }
      assert cs[..|testInputs|] == cs;
    }

    /**
     * findNewValidKey: a key consistent with every stored vector, or none
     * when no key is.
     */
    method FindNewValidKey(solve: Solver) returns (found: bool, key: seq<bool>)
      requires Valid() && SolverSound(solve)
      ensures found ==> |key| == nbKeyBits && Passes(key)
      ensures !found ==> key == [] && forall k: seq<bool> :: |k| == nbKeyBits ==> !Passes(k)
    {
      var sat := new EzSat();
      var keyLits := sat.Literals(nbKeyBits);
      ForceKeyCorrect(sat, keyLits);
      var ok, res, env := sat.Solve(solve, keyLits);
      assert sat.assumed == KeyQuery(g, slots, testInputs, testOutputs, nbKeyBits);
      assert TestsFit(g, slots, testInputs, testOutputs);
      if !ok {
        UnsatMeansNoKey(g, slots, testInputs, testOutputs, nbKeyBits);
        return false, [];
      }
      KeyQueryMeaning(g, slots, testInputs, testOutputs, nbKeyBits, env);
      return true, res;
    }

    /**
     * findDIFromBestKey: a consistent key and an input on which it
     * disagrees with the current best key; or none, when every consistent
     * key agrees with the best key on every input.
     */
    method FindDIFromBestKey(solve: Solver) returns (found: bool, inputs: seq<bool>, key: seq<bool>)
      requires Valid() && SolverSound(solve) && |bestKey| == nbKeyBits
      ensures found ==> |key| == nbKeyBits && |inputs| == nbInputs && Passes(key) && Outputs(inputs, key) != Outputs(inputs, bestKey)
      ensures !found ==> inputs == [] && key == []
      ensures !found ==> forall k: seq<bool>, x: seq<bool> :: |k| == nbKeyBits && |x| == nbInputs && Passes(k) ==> Outputs(x, k) == Outputs(x, bestKey)
    {
      var sat := new EzSat();
      var keyLits := sat.Literals(nbKeyBits);
      var inputLits := sat.Literals(nbInputs);
      var bestKeyLits := Consts(bestKey);
      ForceKeyCorrect(sat, keyLits);
      var aig1 := AigToSat(inputLits, keyLits);
      var output1 := ExtractOutputs(aig1);
      var aig2 := AigToSat(inputLits, bestKeyLits);
      var output2 := ExtractOutputs(aig2);
      sat.Assume(VecNe(output1, output2));
      var query := keyLits + inputLits;
      var ok, res, env := sat.Solve(solve, query);
      assert sat.assumed == DIFromKeyQuery(g, slots, testInputs, testOutputs, nbKeyBits, nbInputs, bestKey);
      assert TestsFit(g, slots, testInputs, testOutputs);
      if !ok {
        UnsatMeansNoDIFromKey(g, slots, testInputs, testOutputs, nbKeyBits, nbInputs, bestKey);
        return false, [], [];
      }
      DIFromKeyQueryMeaning(g, slots, testInputs, testOutputs, nbKeyBits, nbInputs, bestKey, env);
      return true, res[nbKeyBits..], res[..nbKeyBits];
    }

    /**
     * findDI: two consistent keys and an input on which they disagree; or
     * none, when all consistent keys agree on every input.
     */
    method FindDI(solve: Solver) returns (found: bool, inputs: seq<bool>, key1: seq<bool>, key2: seq<bool>)
      requires Valid() && SolverSound(solve) && |bestKey| == nbKeyBits
      ensures found ==> |key1| == nbKeyBits && |key2| == nbKeyBits && |inputs| == nbInputs
      ensures found ==> Passes(key1) && Passes(key2) && Outputs(inputs, key1) != Outputs(inputs, key2)
      ensures !found ==> inputs == [] && key1 == [] && key2 == []
      ensures !found ==> forall k1: seq<bool>, k2: seq<bool>, x: seq<bool> ::
        |k1| == nbKeyBits && |k2| == nbKeyBits && |x| == nbInputs && Passes(k1) && Passes(k2) ==> Outputs(x, k1) == Outputs(x, k2)
    {
      var sat, keyLits1, keyLits2, inputLits := BuildDIQuery();
      var query := keyLits1 + keyLits2 + inputLits;
      var ok, res, env := sat.Solve(solve, query);
      var n := nbKeyBits;
      assert TestsFit(g, slots, testInputs, testOutputs);
      if !ok {
        UnsatMeansNoDI(g, slots, testInputs, testOutputs, n, nbInputs);
        return false, [], [], [];
      }
      DIQueryMeaning(g, slots, testInputs, testOutputs, n, nbInputs, env);
      return true, res[2 * n..], res[..n], res[n..2 * n];
    }

    /**
     * findDI's formula: both keys consistent with every stored vector, and
     * the outputs under the two keys differing on the shared inputs.
     */
    method BuildDIQuery() returns (sat: EzSat, keyLits1: seq<Formula>, keyLits2: seq<Formula>, inputLits: seq<Formula>)
      requires Valid()
      ensures fresh(sat) && sat.nbVars == 2 * nbKeyBits + nbInputs
      ensures keyLits1 == Vars(0, nbKeyBits) && keyLits2 == Vars(nbKeyBits, nbKeyBits) && inputLits == Vars(2 * nbKeyBits, nbInputs)
      ensures sat.assumed == DIQuery(g, slots, testInputs, testOutputs, nbKeyBits, nbInputs)
    {
      sat := new EzSat();
      keyLits1 := sat.Literals(nbKeyBits);
      keyLits2 := sat.Literals(nbKeyBits);
      inputLits := sat.Literals(nbInputs);
      ghost var c1 := KeyCorrect(keyLits1);
      ghost var c2 := KeyCorrect(keyLits2);
      ForceKeyCorrect(sat, keyLits1);
      assert sat.assumed == c1;
      ForceKeyCorrect(sat, keyLits2);
      assert sat.assumed == c1 + c2;
      var aig1 := AigToSat(inputLits, keyLits1);
      var output1 := ExtractOutputs(aig1);
      var aig2 := AigToSat(inputLits, keyLits2);
      var output2 := ExtractOutputs(aig2);
      assert output1 == EncodeOutputs(g, slots, Vars(2 * nbKeyBits, nbInputs), Vars(0, nbKeyBits));
      assert output2 == EncodeOutputs(g, slots, Vars(2 * nbKeyBits, nbInputs), Vars(nbKeyBits, nbKeyBits));
      sat.Assume(VecNe(output1, output2));
      assert sat.assumed == DIQuery(g, slots, testInputs, testOutputs, nbKeyBits, nbInputs);
    }

    /**
     * checkSatTranslation: with constant inputs and key, the solver's values
     * of aigToSat's literals equal the simulated state of the design; the
     * check never reports an error.
     */
    method CheckSatTranslation(inputs: seq<bool>, key: seq<bool>, solve: Solver) returns (passed: bool)
      requires Layout() && |inputs| == nbInputs && |key| == nbKeyBits && SolverSound(solve)
      ensures passed
    {
      var sat := new EzSat();
      var inputLits := Consts(inputs);
      var keyLits := Consts(key);
      var aigLits := AigToSat(inputLits, keyLits);
      var aigInputs := ToAigInputs(inputs, key);
      var expected := Values(Bits, g, false, aigInputs, {});
      assert Satisfies([], sat.assumed);
      var ok, res, env := sat.Solve(solve, aigLits);
      EncodingAgreesWithSimulation(g, slots, inputLits, keyLits, env);
      ConstsEval(env, inputs);
      ConstsEval(env, key);
      passed := ok && res == expected;
    }

    /** genTestVector: store the next random vector with the oracle's answer. */
    method GenTestVector(draw: nat -> seq<bool>)
      requires Valid() && Draws(draw)
      modifies this
      ensures Valid()
      ensures testInputs == old(testInputs) + [draw(old(drawn))] && testOutputs == old(testOutputs) + [Oracle(draw(old(drawn)))]
      ensures drawn == old(drawn) + 1 && bestKey == old(bestKey) && keyFound == old(keyFound)
    {
      var inputs := GenInputVector(draw);
      AddTestVector(inputs);
    }

    /**
     * runPrologue: replace the store by nbInitialVectors random vectors,
     * then pick a first consistent key. The expected key always passes, so
     * a sound solver always finds one.
     */
    method RunPrologue(nbInitialVectors: int, draw: nat -> seq<bool>, solve: Solver) returns (ok: bool)
      requires Layout() && Draws(draw) && SolverSound(solve)
      modifies this
      ensures Valid() && ok && !keyFound
      ensures testInputs == DrawnVectors(draw, old(drawn), Count(nbInitialVectors))
      ensures drawn == old(drawn) + Count(nbInitialVectors)
      ensures |bestKey| == nbKeyBits && Passes(bestKey)
    {
      testInputs := [];
      testOutputs := [];
      ghost var start := drawn;
      var i := 0;
      while i < nbInitialVectors
        invariant 0 <= i <= Count(nbInitialVectors)
        invariant Valid() && drawn == start + i
        invariant testInputs == DrawnVectors(draw, start, i)
      {
        GenTestVector(draw);
        i := i + 1;
      }
      ExpectedKeyPasses();
      var passes := KeyPassesTests(expectedKey);
      assert passes;
      keyFound := false;
      bestKey := [];
      var found, key := FindNewValidKey(solve);
      bestKey := key;
      ok := found;
    }

    /**
     * One round of measureErrorAndConstrain's loop: draw a vector; when the
     * best key is wrong on it, count it, and store it while at most
     * maxConstraints have been counted.
     */
    method MeasureOne(draw: nat -> seq<bool>, maxConstraints: int, nbErrors: int,
                      ghost in0: seq<seq<bool>>, ghost failing: seq<seq<bool>>) returns (newErrors: int, ghost failing': seq<seq<bool>>)
      requires Valid() && Draws(draw) && |bestKey| == nbKeyBits
      requires nbErrors == |failing| && testInputs == in0 + Take(failing, maxConstraints)
      modifies this`drawn, this`testInputs, this`testOutputs
      ensures Valid() && drawn == old(drawn) + 1
      ensures failing' == failing + (if Wrong(g, slots, bestKey, expectedKey, draw(old(drawn))) then [draw(old(drawn))] else [])
      ensures newErrors == |failing'| && testInputs == in0 + Take(failing', maxConstraints)
      ensures |testOutputs| == |testInputs| && testOutputs[..|old(testOutputs)|] == old(testOutputs)
    {
      newErrors, failing' := nbErrors, failing;
      var inputs := GenInputVector(draw);
      var expected := CallDesign(inputs, expectedKey);
      var outputs := CallDesign(inputs, bestKey);
      assert Wrong(g, slots, bestKey, expectedKey, inputs) == (outputs != expected);
      if outputs != expected {
        TakeSnoc(failing, inputs, maxConstraints);
        newErrors := newErrors + 1;
        failing' := failing + [inputs];
        if newErrors <= maxConstraints {
          testInputs := testInputs + [inputs];
          testOutputs := testOutputs + [expected];
          assert testOutputs[..|old(testOutputs)|] == old(testOutputs);
        }
      }
    }

    /**
     * measureErrorAndConstrain: draw nbRandomVectors vectors, count those on
     * which the best key is wrong, store the first maxConstraints of them,
     * and return the error rate.
     */
    method MeasureErrorAndConstrain(nbRandomVectors: int, maxConstraints: int, draw: nat -> seq<bool>) returns (epsilon: real)
      requires Valid() && Draws(draw) && |bestKey| == nbKeyBits
      modifies this`drawn, this`testInputs, this`testOutputs
      ensures Valid() && drawn == old(drawn) + Count(nbRandomVectors)
      ensures var failing := FailingDrawn(g, slots, bestKey, expectedKey, draw, old(drawn), Count(nbRandomVectors));
        testInputs == old(testInputs) + Take(failing, maxConstraints)
        && epsilon == if nbRandomVectors <= 0 then 0.0 else |failing| as real / nbRandomVectors as real
      ensures |testOutputs| == |testInputs| && testOutputs[..|old(testOutputs)|] == old(testOutputs)
      ensures 0.0 <= epsilon <= 1.0
    {
      var nbErrors := CountErrors(nbRandomVectors, maxConstraints, draw);
      if nbRandomVectors > 0 {
        RatioBound(nbErrors, nbRandomVectors);
      }
      epsilon := if nbRandomVectors <= 0 then 0.0 else nbErrors as real / nbRandomVectors as real;
    }

    /** measureErrorAndConstrain's loop: the number of drawn vectors the best key gets wrong, storing the first maxConstraints of them. */
    method CountErrors(nbRandomVectors: int, maxConstraints: int, draw: nat -> seq<bool>) returns (nbErrors: int)
      requires Valid() && Draws(draw) && |bestKey| == nbKeyBits
      modifies this`drawn, this`testInputs, this`testOutputs
      ensures Valid() && drawn == old(drawn) + Count(nbRandomVectors)
      ensures var failing := FailingDrawn(g, slots, bestKey, expectedKey, draw, old(drawn), Count(nbRandomVectors));
        testInputs == old(testInputs) + Take(failing, maxConstraints) && nbErrors == |failing|
      ensures |testOutputs| == |testInputs| && testOutputs[..|old(testOutputs)|] == old(testOutputs)
    {
      ghost var start := drawn;
      ghost var in0 := testInputs;
      ghost var out0 := testOutputs;
      ghost var key := bestKey;
      ghost var failing: seq<seq<bool>> := [];
      nbErrors := 0;
      var i := 0;
      while i < nbRandomVectors
        invariant 0 <= i <= Count(nbRandomVectors)
        invariant Valid() && drawn == start + i
        invariant failing == FailingDrawn(g, slots, key, expectedKey, draw, start, i)
        invariant nbErrors == |failing|
        invariant testInputs == in0 + Take(failing, maxConstraints)
      {
        FailingDrawnNext(g, slots, key, expectedKey, draw, start, i, draw(drawn));
        nbErrors, failing := MeasureOne(draw, maxConstraints, nbErrors, in0, failing);
        i := i + 1;
      }
      assert i == Count(nbRandomVectors);
      assert start == old(drawn) && in0 == old(testInputs) && out0 == old(testOutputs);
      StoredAnswersKept(in0, out0);
    }

    /** The stored answers are the oracle's, so keeping the stored inputs as a prefix keeps the stored answers too. */
    lemma StoredAnswersKept(in0: seq<seq<bool>>, out0: seq<seq<bool>>)
      requires Valid() && |in0| == |out0| && |in0| <= |testInputs| && testInputs[..|in0|] == in0
      requires forall i :: 0 <= i < |in0| ==> |in0[i]| == nbInputs && out0[i] == Oracle(in0[i])
      ensures testOutputs[..|out0|] == out0
    {
      forall i | 0 <= i < |out0|
        ensures testOutputs[i] == out0[i]
      {
        assert testInputs[i] == in0[i];
      }
    }

    /**
     * runSat: after the prologue, repeatedly look for an input on which a
     * consistent key disagrees with the best key, store it with the
     * oracle's answer and pick a new consistent key. When there is no such
     * input, the best key behaves as the oracle on every input. Each stored
     * input removes a consistent key, which bounds the number of rounds.
     */
    method RunSat(nbInitialVectors: int, draw: nat -> seq<bool>, solve: Solver)
      requires Layout() && Draws(draw) && SolverSound(solve)
      modifies this
      ensures Valid() && keyFound && |bestKey| == nbKeyBits
      ensures Passes(bestKey) && Unlocks(bestKey)
      ensures DrawnVectors(draw, old(drawn), Count(nbInitialVectors)) <= testInputs
    {
      var ok := RunPrologue(nbInitialVectors, draw, solve);
      if !ok {
        return;
      }
      ghost var initial := testInputs;
      while true
        invariant Valid() && |bestKey| == nbKeyBits && Passes(bestKey) && !keyFound
        invariant initial <= testInputs
        decreases |ConsistentKeys()|
      {
        var found, candidateInputs, candidateKey := FindDIFromBestKey(solve);
        if !found {
          ExpectedKeyPasses();
          keyFound := true;
          break;
        }
        DistinguishingVectorShrinks(g, slots, nbKeyBits, testInputs, testOutputs, candidateInputs, Oracle(candidateInputs), candidateKey, bestKey);
        AddTestVector(candidateInputs);
        ExpectedKeyPasses();
        var newKey;
        found, newKey := FindNewValidKey(solve);
        bestKey := newKey;
        if !found {
          break;
        }
      }
      if keyFound {
        var passes := KeyPassesTests(bestKey);
        assert passes;
      }
    }

    /**
     * measured[i] is the error rate of keys[i] over the i-th batch of
     * Count(n) draws after position from: runAppSat's i-th measurement,
     * taken with the best key of that moment.
     */
    ghost predicate MeasuredRates(measured: seq<real>, keys: seq<seq<bool>>, draw: nat -> seq<bool>, from: nat, n: int)
    {
      && |keys| == |measured|
      && forall i :: 0 <= i < |measured| ==>
           measured[i] == ErrorRate(g, slots, keys[i], expectedKey, draw, from + i * Count(n), n)
    }

    /** One more measurement, taken right after the earlier batches, extends MeasuredRates. */
    lemma MeasuredRatesSnoc(measured: seq<real>, keys: seq<seq<bool>>, draw: nat -> seq<bool>, from: nat, n: int,
                            e: real, key: seq<bool>, at: nat)
      requires MeasuredRates(measured, keys, draw, from, n) && at == from + |measured| * Count(n)
      requires e == ErrorRate(g, slots, key, expectedKey, draw, at, n)
      ensures MeasuredRates(measured + [e], keys + [key], draw, from, n)
      ensures at + Count(n) == from + |measured + [e]| * Count(n)
    {
      assert (|measured| + 1) * Count(n) == |measured| * Count(n) + Count(n);
    }

    /**
     * How runAppSat's loop stops: exactly (every consistent key then
     * behaves as the oracle), or approximately, after settleThreshold
     * measured rates in a row below errorThreshold, the last of them
     * taken on the best key.
     */
    ghost predicate Stopped(exact: bool, measured: seq<real>, keys: seq<seq<bool>>, errorThreshold: real, settleThreshold: int)
      reads this`testInputs, this`testOutputs, this`bestKey
      requires Layout()
    {
      && (exact ==> forall k: seq<bool> :: |k| == nbKeyBits && Passes(k) ==> Unlocks(k))
      && (!exact ==> |measured| > 0 && |keys| == |measured| && measured[|measured| - 1] < errorThreshold
                     && settleThreshold <= TrailingBelow(measured, errorThreshold) && keys[|keys| - 1] == bestKey)
    }

    /**
     * runAppSat: like runSat, but the best key is one of the two keys of
     * the last distinguishing input, and every nbDIQueries rounds its error
     * rate is measured on random vectors (at most doubling the store with
     * the failing ones). The attack stops when no distinguishing input is
     * left (exact is true: every consistent key then behaves as the oracle)
     * or once settleThreshold measurements in a row are below
     * errorThreshold. measured lists the error rates in order.
     */
    method RunAppSat(errorThreshold: real, nbInitialVectors: int, nbDIQueries: int, nbRandomVectors: int, settleThreshold: int,
                     draw: nat -> seq<bool>, solve: Solver) returns (exact: bool, ghost measured: seq<real>, ghost keys: seq<seq<bool>>)
      requires Layout() && Draws(draw) && SolverSound(solve) && nbDIQueries != 0
      modifies this
      ensures Valid() && keyFound && |bestKey| == nbKeyBits
      ensures MeasuredRates(measured, keys, draw, old(drawn) + Count(nbInitialVectors), nbRandomVectors)
      ensures Stopped(exact, measured, keys, errorThreshold, settleThreshold)
    {
      var ok := RunPrologue(nbInitialVectors, draw, solve);
      exact, measured, keys := AppSatLoop(errorThreshold, nbDIQueries, nbRandomVectors, settleThreshold, draw, solve);
      keyFound := true;
    }

    /**
     * runAppSat's main loop: query distinguishing inputs, and after every
     * nbDIQueries of them measure the best key's error rate; stop exactly
     * when no distinguishing input is left, or approximately once the
     * rate has stayed below the threshold settleThreshold times in a row.
     * Both stops set keyFound_ and leave runAppSat, so RunAppSat sets it
     * once this returns.
     */
    method AppSatLoop(errorThreshold: real, nbDIQueries: int, nbRandomVectors: int, settleThreshold: int,
                      draw: nat -> seq<bool>, solve: Solver) returns (exact: bool, ghost measured: seq<real>, ghost keys: seq<seq<bool>>)
      requires Valid() && Draws(draw) && SolverSound(solve) && nbDIQueries != 0 && |bestKey| == nbKeyBits
      modifies this
      ensures Valid() && |bestKey| == nbKeyBits
      ensures MeasuredRates(measured, keys, draw, old(drawn), nbRandomVectors)
      ensures drawn == old(drawn) + |measured| * Count(nbRandomVectors)
      ensures Stopped(exact, measured, keys, errorThreshold, settleThreshold)
    {
      exact, measured, keys := false, [], [];
      var queryCount := 0;
      var settleCount := 0;
      ghost var d0 := drawn;
      while true
        invariant Valid() && |bestKey| == nbKeyBits
        invariant settleCount == TrailingBelow(measured, errorThreshold) && Rates(measured)
        invariant MeasuredRates(measured, keys, draw, d0, nbRandomVectors)
        invariant drawn == d0 + |measured| * Count(nbRandomVectors)
        decreases |ConsistentKeys()|
      {
        var found, _, _ := AppSatQuery(solve);
        if !found {
          return true, measured, keys;
        }
        queryCount := queryCount + 1;
        if queryCount % nbDIQueries != 0 {
          continue;
        }
        var epsilon;
        epsilon, measured, keys := AppSatRecord(errorThreshold, nbRandomVectors, draw, measured, keys, d0);
        if epsilon < errorThreshold {
          settleCount := settleCount + 1;
          if settleCount >= settleThreshold {
            assert measured[|measured| - 1] < errorThreshold;
            return false, measured, keys;
          }
        } else {
          settleCount := 0;
        }
      }
    }

    /**
     * One measurement of runAppSat's loop, recorded: the best key's error
     * rate over the next batch of draws is appended to measured, the key to
     * keys, and the trailing count of rates below the threshold grows by
     * one or restarts at zero.
     */
    method AppSatRecord(errorThreshold: real, nbRandomVectors: int, draw: nat -> seq<bool>,
                        ghost measured: seq<real>, ghost keys: seq<seq<bool>>, ghost d0: nat)
      returns (epsilon: real, ghost measured': seq<real>, ghost keys': seq<seq<bool>>)
      requires Valid() && Draws(draw) && |bestKey| == nbKeyBits && Rates(measured)
      requires MeasuredRates(measured, keys, draw, d0, nbRandomVectors) && drawn == d0 + |measured| * Count(nbRandomVectors)
      modifies this
      ensures Valid() && bestKey == old(bestKey) && keyFound == old(keyFound)
      ensures measured' == measured + [epsilon] && keys' == keys + [bestKey] && Rates(measured')
      ensures MeasuredRates(measured', keys', draw, d0, nbRandomVectors) && drawn == d0 + |measured'| * Count(nbRandomVectors)
      ensures TrailingBelow(measured', errorThreshold) == if epsilon < errorThreshold then TrailingBelow(measured, errorThreshold) + 1 else 0
      ensures |ConsistentKeys()| <= old(|ConsistentKeys()|)
    {
      epsilon := AppSatMeasure(nbRandomVectors, draw);
      MeasuredRatesSnoc(measured, keys, draw, d0, nbRandomVectors, epsilon, bestKey, old(drawn));
      MeasuredSnoc(measured, epsilon, errorThreshold);
      measured', keys' := measured + [epsilon], keys + [bestKey];
    }

    /**
     * One query of runAppSat's loop: a distinguishing input whose first
     * key becomes the best key, stored with the oracle's answer, so the
     * consistent keys strictly shrink; without one, every consistent key
     * unlocks the design.
     */
    method AppSatQuery(solve: Solver) returns (found: bool, inputs: seq<bool>, key1: seq<bool>)
      requires Valid() && SolverSound(solve) && |bestKey| == nbKeyBits
      modifies this
      ensures Valid() && |bestKey| == nbKeyBits && keyFound == old(keyFound) && drawn == old(drawn)
      ensures found ==> |key1| == nbKeyBits && |inputs| == nbInputs && old(Passes(key1)) && bestKey == key1
      ensures found ==> testInputs == old(testInputs) + [inputs] && testOutputs == old(testOutputs) + [Oracle(inputs)]
      ensures found ==> |ConsistentKeys()| < old(|ConsistentKeys()|)
      ensures !found ==> testInputs == old(testInputs) && testOutputs == old(testOutputs) && bestKey == old(bestKey)
      ensures !found ==> forall k: seq<bool> :: |k| == nbKeyBits && Passes(k) ==> Unlocks(k)
    {
      var key2;
      found, inputs, key1, key2 := FindDI(solve);
      if !found {
        AgreeingKeysUnlock();
        return;
      }
      bestKey := key1;
      DistinguishingVectorShrinks(g, slots, nbKeyBits, testInputs, testOutputs, inputs, Oracle(inputs), key1, key2);
      AddTestVector(inputs);
    }

    /**
     * runAppSat's measuring step: the best key's error rate on the next
     * nbRandomVectors draws, storing at most as many failing vectors as the
     * store held before; the stored vectors only grow, so the consistent
     * keys do not.
     */
    method AppSatMeasure(nbRandomVectors: int, draw: nat -> seq<bool>) returns (epsilon: real)
      requires Valid() && Draws(draw) && |bestKey| == nbKeyBits
      modifies this
      ensures Valid() && bestKey == old(bestKey) && keyFound == old(keyFound)
      ensures drawn == old(drawn) + Count(nbRandomVectors)
      ensures epsilon == ErrorRate(g, slots, bestKey, expectedKey, draw, old(drawn), nbRandomVectors)
      ensures testInputs == old(testInputs)
        + Take(FailingDrawn(g, slots, bestKey, expectedKey, draw, old(drawn), Count(nbRandomVectors)), |old(testInputs)|)
      ensures |testOutputs| == |testInputs| && testOutputs[..|old(testOutputs)|] == old(testOutputs)
      ensures |ConsistentKeys()| <= old(|ConsistentKeys()|)
    {
      epsilon := MeasureErrorAndConstrain(nbRandomVectors, |testInputs|, draw);
      GrownStoreFewerKeys(g, slots, nbKeyBits, old(testInputs), old(testOutputs), testInputs, testOutputs);
    }

    /**
     * runAppSat with the key it reports re-checked: after an exact stop,
     * a best key that fails the stored vectors is replaced by a consistent
     * key, so an exact stop always reports a key that unlocks the design.
     */
    method RunAppSatUnlocking(errorThreshold: real, nbInitialVectors: int, nbDIQueries: int, nbRandomVectors: int, settleThreshold: int,
                              draw: nat -> seq<bool>, solve: Solver) returns (exact: bool, ghost measured: seq<real>)
      requires Layout() && Draws(draw) && SolverSound(solve) && nbDIQueries != 0
      modifies this
      ensures Valid() && keyFound && |bestKey| == nbKeyBits
      ensures exact ==> Passes(bestKey) && Unlocks(bestKey)
      ensures !exact ==> (|measured| > 0 && measured[|measured| - 1] < errorThreshold
                          && settleThreshold <= TrailingBelow(measured, errorThreshold))
    {
      ghost var keys;
      exact, measured, keys := RunAppSat(errorThreshold, nbInitialVectors, nbDIQueries, nbRandomVectors, settleThreshold, draw, solve);
      if exact {
        var passes := KeyPassesTests(bestKey);
        if !passes {
          ExpectedKeyPasses();
          var found, key := FindNewValidKey(solve);
          bestKey := key;
        }
      }
    }

    /**
     * runBruteForce: refused from 32 key bits on; otherwise try every key
     * in increasing order and keep the last one that passes the stored
     * vectors. The expected key passes, so one is always found.
     */
    method RunBruteForce() returns (r: Result<()>)
      requires Valid()
      modifies this`bestKey, this`keyFound
      ensures nbKeyBits >= 32 <==> r.Err?
      ensures r.Err? ==> r.msg == BruteForceTooWideMessage(nbKeyBits) && bestKey == old(bestKey) && keyFound == old(keyFound)
      ensures r.Ok? ==> keyFound && exists m :: (m in ConsistentKeys() && bestKey == KeyOf(nbKeyBits, m)
                                                  && forall j :: j in ConsistentKeys() ==> j <= m)
    {
      if nbKeyBits >= 32 {
        return Err(BruteForceTooWideMessage(nbKeyBits));
      }
      var key := seq(nbKeyBits, _ => false);
      ghost var consistent := ConsistentKeys();
      ghost var last := -1;
      var i := 0;
      while i < Pow2(nbKeyBits)
        invariant 0 <= i <= Pow2(nbKeyBits) && |key| == nbKeyBits && -1 <= last < i
        invariant last == -1 ==> bestKey == old(bestKey) && keyFound == old(keyFound)
        invariant last >= 0 ==> keyFound && last in consistent && bestKey == KeyOf(nbKeyBits, last)
        invariant NoneBetween(consistent, last, i)
      {
        key := SetKeyBits(key, i);
        var ok := KeyPassesTests(key);
        assert ok <==> i in consistent;
        NoneBetweenStep(consistent, last, i);
        if ok {
          bestKey := key;
          keyFound := true;
          last := i;
        }
        i := i + 1;
      }
      ExpectedKeyPasses();
      KeyValueRoundTrip(expectedKey);
      assert ValueOf(expectedKey) in consistent;
      LastIsLargest(consistent, Pow2(nbKeyBits), last, ValueOf(expectedKey));
      assert consistent == ConsistentKeys();
      return Ok(());
    }

    /**
     * Why the SAT attack stops when no distinguishing input is left: the
     * expected key is consistent, so keys that agree with every consistent
     * key agree with the oracle.
     */
    lemma AgreeingKeysUnlock()
      requires Valid()
      requires forall k1: seq<bool>, k2: seq<bool>, x: seq<bool> ::
        |k1| == nbKeyBits && |k2| == nbKeyBits && |x| == nbInputs && Passes(k1) && Passes(k2) ==> Outputs(x, k1) == Outputs(x, k2)
      ensures forall k: seq<bool> :: |k| == nbKeyBits && Passes(k) ==> Unlocks(k)
    {
      ExpectedKeyPasses();
      forall k: seq<bool> | |k| == nbKeyBits && Passes(k)
        ensures Unlocks(k)
      {
        forall x: seq<bool> | |x| == nbInputs
          ensures Outputs(x, k) == Oracle(x)
        {
        }
      }
    }

    /** The expected key is consistent with every stored vector: the oracle is the design under it. */
    lemma ExpectedKeyPasses()
      requires Valid()
      ensures Passes(expectedKey)
    {}
  }

  /**
   * The constructor's size check: a given key shorter than the key port is
   * an error; otherwise the attack starts from an empty store.
   */
  method Create(g: Aig, slots: seq<Slot>, nbKeyBits: nat, key: seq<bool>) returns (r: Result<SatAttack>)
    requires DesignShape(g, slots, nbKeyBits) && DataCount(slots) + nbKeyBits == |slots|
    ensures |key| < nbKeyBits <==> r == Err(KeyTooShortMessage(|key|, nbKeyBits))
    ensures r.Ok? ==> fresh(r.value) && r.value.Valid() && r.value.expectedKey == key[..nbKeyBits]
    ensures r.Ok? ==> r.value.testInputs == [] && !r.value.keyFound
  {
    if |key| < nbKeyBits {
      return Err(KeyTooShortMessage(|key|, nbKeyBits));
    }
    var attack := new SatAttack(g, slots, nbKeyBits, key);
    return Ok(attack);
  }
}
