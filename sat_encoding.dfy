/**
 * The pieces of src/sat_attack.cpp that do not depend on the attack's
 * state: where each combinational input of the locked design gets its
 * value from (a data input or a key bit), the propositional formulas the
 * SAT encoding builds, and the solver session (ezMiniSAT) reduced to what
 * the attack relies on.
 */
module SatEncoding {
  import opened Common
  import opened MiniAig

  /*
   * Input placement. The combinational inputs of the design are listed in
   * the analyzer's order; those that are bits of the key port read the key
   * bit at their offset, the others consume the data inputs in order.
   */

  datatype Slot = KeyBit(offset: nat) | DataBit

  /** The number of data inputs among the slots. */
  function DataCount(slots: seq<Slot>): nat
  {
    if slots == [] then 0
    else DataCount(slots[..|slots| - 1]) + (if slots[|slots| - 1].DataBit? then 1 else 0)
  }

  lemma DataCountBound(slots: seq<Slot>)
    ensures DataCount(slots) <= |slots|
  {}

  /** Every key-port input refers to a bit of a key of n bits. */
  predicate KeyOffsetsBelow(slots: seq<Slot>, n: nat)
  {
    forall i :: 0 <= i < |slots| && slots[i].KeyBit? ==> slots[i].offset < n
  }

  /** The value of every combinational input, given the data inputs and the key. */
  function Place<T>(slots: seq<Slot>, inputs: seq<T>, key: seq<T>): (r: seq<T>)
    requires DataCount(slots) <= |inputs| && KeyOffsetsBelow(slots, |key|)
    ensures |r| == |slots|
  {
    if slots == [] then []
    else
      var front := slots[..|slots| - 1];
      var s := slots[|slots| - 1];
      Place(front, inputs, key) + [if s.KeyBit? then key[s.offset] else inputs[DataCount(front)]]
  }

  /**
   * Input i reads key bit offset when it belongs to the key port, and
   * otherwise the data input whose index is the number of data inputs
   * listed before it.
   */
  lemma {:induction false} PlaceAt<T>(slots: seq<Slot>, inputs: seq<T>, key: seq<T>, i: nat)
    requires DataCount(slots) <= |inputs| && KeyOffsetsBelow(slots, |key|) && i < |slots|
    ensures DataCount(slots[..i]) < |inputs| || slots[i].KeyBit?
    ensures Place(slots, inputs, key)[i]
            == if slots[i].KeyBit? then key[slots[i].offset] else inputs[DataCount(slots[..i])]
  {
    var front := slots[..|slots| - 1];
    assert slots[..|slots| - 1][..i] == slots[..i] by {
      assert i <= |slots| - 1;
    }
    if i < |slots| - 1 {
      PlaceAt(front, inputs, key, i);
      assert slots[..i] == front[..i];
    } else {
      assert slots[..i] == front;
    }
  }

  /** The values the data slots receive, in slot order. */
  function DataValues<T>(slots: seq<Slot>, values: seq<T>): (r: seq<T>)
    requires |values| == |slots|
    ensures |r| == DataCount(slots)
  {
    if slots == [] then []
    else
      var n := |slots| - 1;
      DataValues(slots[..n], values[..n]) + (if slots[n].DataBit? then [values[n]] else [])
  }

  /** The data inputs are consumed in order, each exactly once. */
  lemma {:induction false} PlaceConsumesInputsInOrder<T>(slots: seq<Slot>, inputs: seq<T>, key: seq<T>)
    requires DataCount(slots) <= |inputs| && KeyOffsetsBelow(slots, |key|)
    ensures DataValues(slots, Place(slots, inputs, key)) == inputs[..DataCount(slots)]
  {
    if slots != [] {
      var n := |slots| - 1;
      var front := slots[..n];
      PlaceConsumesInputsInOrder(front, inputs, key);
      assert Place(slots, inputs, key)[..n] == Place(front, inputs, key);
      if slots[n].DataBit? {
        assert inputs[..DataCount(slots)] == inputs[..DataCount(front)] + [inputs[DataCount(front)]];
      }
    }
  }

  /** Placing mapped values is mapping the placed values. */
  lemma {:induction false} PlaceMap<T, U>(h: T -> U, slots: seq<Slot>, inputs: seq<T>, key: seq<T>)
    requires DataCount(slots) <= |inputs| && KeyOffsetsBelow(slots, |key|)
    ensures Map(h, Place(slots, inputs, key)) == Place(slots, Map(h, inputs), Map(h, key))
  {
    if slots != [] {
      PlaceMap(h, slots[..|slots| - 1], inputs, key);
    }
  }

  /**
   * The placement loop shared by toAigInputs and aigToSat: one value per
   * combinational input, with a running index into the data inputs.
   */
  method PlaceInputs<T>(slots: seq<Slot>, inputs: seq<T>, key: seq<T>) returns (r: seq<T>)
    requires DataCount(slots) <= |inputs| && KeyOffsetsBelow(slots, |key|)
    ensures r == Place(slots, inputs, key)
  {
    r := [];
    var inputInd := 0;
    for i := 0 to |slots|
      invariant inputInd == DataCount(slots[..i]) <= DataCount(slots)
      invariant r == Place(slots[..i], inputs, key)
    {
      assert slots[..i + 1][..i] == slots[..i];
      PrefixDataCount(slots, i + 1);
      if slots[i].KeyBit? {
        r := r + [key[slots[i].offset]];
      } else {
        r := r + [inputs[inputInd]];
        inputInd := inputInd + 1;
      }
    }
    assert slots[..|slots|] == slots;
  }

  /** A prefix holds no more data inputs than the whole list. */
  lemma {:induction false} PrefixDataCount(slots: seq<Slot>, i: nat)
    requires i <= |slots|
    ensures DataCount(slots[..i]) <= DataCount(slots)
    decreases |slots|
  {
    if i < |slots| {
      assert slots[..|slots| - 1][..i] == slots[..i];
      PrefixDataCount(slots[..|slots| - 1], i);
    } else {
      assert slots[..i] == slots;
    }
  }

  /*
   * Propositional formulas: the ezSAT expressions the encoding builds.
   * Variables are created by the solver session; constants are
   * CONST_TRUE/CONST_FALSE.
   */

  datatype Formula = FConst(b: bool) | FVar(id: nat) | FNot(f: Formula) | FAnd(l: Formula, r: Formula) | FIff(l: Formula, r: Formula)

  /** The truth value of a formula under an assignment of its variables (unassigned ones read false). */
  function Eval(env: seq<bool>, f: Formula): bool
  {
    match f
    case FConst(b) => b
    case FVar(id) => id < |env| && env[id]
    case FNot(x) => !Eval(env, x)
    case FAnd(x, y) => Eval(env, x) && Eval(env, y)
    case FIff(x, y) => Eval(env, x) == Eval(env, y)
  }

  function EvalUnder(env: seq<bool>): Formula -> bool
  {
    (f: Formula) => Eval(env, f)
  }

  /** The values of a vector of formulas under an assignment. */
  function EvalAll(env: seq<bool>, fs: seq<Formula>): (r: seq<bool>)
    ensures |r| == |fs|
    ensures forall i :: 0 <= i < |fs| ==> r[i] == Eval(env, fs[i])
  {
    Map(EvalUnder(env), fs)
  }

  function FAndOp(x: Formula, y: Formula): Formula { FAnd(x, y) }
  function FNotOp(x: Formula): Formula { FNot(x) }

  /** AIG simulation over formulas: the literals aigToSat creates. */
  const Formulas: Algebra<Formula> := Algebra(FAndOp, FNotOp)

  /** Evaluating under an assignment maps formula construction onto Boolean operations. */
  lemma EvalIsHomomorphism(env: seq<bool>)
    ensures Homomorphism(Formulas, Bits, EvalUnder(env))
  {
    forall x, y
      ensures EvalUnder(env)(Formulas.and(x, y)) == Bits.and(EvalUnder(env)(x), EvalUnder(env)(y))
    {
      BitsOps(Eval(env, x), Eval(env, y));
    }
    forall x
      ensures EvalUnder(env)(Formulas.not(x)) == Bits.not(EvalUnder(env)(x))
    {
      BitsOps(Eval(env, x), Eval(env, x));
    }
  }

  /** boolVectorToSat: each bit as the constant formula of that value. */
  function Consts(v: seq<bool>): (r: seq<Formula>)
    ensures |r| == |v|
  {
    seq(|v|, i requires 0 <= i < |v| => FConst(v[i]))
  }

  /** Constant formulas evaluate to their bits under every assignment. */
  lemma ConstsEval(env: seq<bool>, v: seq<bool>)
    ensures EvalAll(env, Consts(v)) == v
  {}

  /** vec_eq: the conjunction of the bitwise equivalences of two vectors of equal length. */
  function VecEq(a: seq<Formula>, b: seq<Formula>): (r: Formula)
    requires |a| == |b|
  {
    if a == [] then FConst(true)
    else FAnd(VecEq(a[..|a| - 1], b[..|b| - 1]), FIff(a[|a| - 1], b[|b| - 1]))
  }

  /** vec_eq holds exactly when the two vectors take the same values. */
  lemma {:induction false} VecEqMeaning(env: seq<bool>, a: seq<Formula>, b: seq<Formula>)
    requires |a| == |b|
    ensures Eval(env, VecEq(a, b)) <==> EvalAll(env, a) == EvalAll(env, b)
  {
    if a != [] {
      var n := |a| - 1;
      VecEqMeaning(env, a[..n], b[..n]);
      assert EvalAll(env, a) == EvalAll(env, a[..n]) + [Eval(env, a[n])];
      assert EvalAll(env, b) == EvalAll(env, b[..n]) + [Eval(env, b[n])];
    }
  }

  /** vec_ne: the negation of vec_eq. */
  function VecNe(a: seq<Formula>, b: seq<Formula>): (r: Formula)
    requires |a| == |b|
  {
    FNot(VecEq(a, b))
  }

  /** Every formula of the list holds. */
  predicate Satisfies(env: seq<bool>, constraints: seq<Formula>)
  {
    forall i :: 0 <= i < |constraints| ==> Eval(env, constraints[i])
  }

  lemma SatisfiesAppend(env: seq<bool>, a: seq<Formula>, b: seq<Formula>)
    ensures Satisfies(env, a + b) <==> Satisfies(env, a) && Satisfies(env, b)
  {
    if Satisfies(env, a) && Satisfies(env, b) {
      forall i | 0 <= i < |a + b|
        ensures Eval(env, (a + b)[i])
      {
        if i >= |a| {
          assert (a + b)[i] == b[i - |a|];
        }
      }
    }
    if Satisfies(env, a + b) {
      forall i | 0 <= i < |a|
        ensures Eval(env, a[i])
      {
        assert (a + b)[i] == a[i];
      }
      forall i | 0 <= i < |b|
        ensures Eval(env, b[i])
      {
        assert (a + b)[|a| + i] == b[i];
      }
    }
  }

  /*
   * Formulas of an AIG: aigToSat's literals are the simulation of the graph
   * over formulas, starting from CONST_FALSE and the placed input formulas.
   */

  /**
   * Under any assignment, the encoding's literals take the values of the
   * one-bit simulation of the assigned inputs and key: what the source's
   * checkSatTranslation checks at run time.
   */
  lemma EncodingAgreesWithSimulation(g: Aig, slots: seq<Slot>, inF: seq<Formula>, keyF: seq<Formula>, env: seq<bool>)
    requires Acyclic(g) && g.nbInputs == |slots|
    requires DataCount(slots) <= |inF| && KeyOffsetsBelow(slots, |keyF|)
    ensures EvalAll(env, Values(Formulas, g, FConst(false), Place(slots, inF, keyF), {}))
            == Values(Bits, g, false, Place(slots, EvalAll(env, inF), EvalAll(env, keyF)), {})
  {
    var h := EvalUnder(env);
    var ins := Place(slots, inF, keyF);
    EvalIsHomomorphism(env);
    PlaceMap(h, slots, inF, keyF);
    forall v | 0 <= v < g.NbVars()
      ensures h(NodeValue(Formulas, g, FConst(false), ins, {}, v)) == NodeValue(Bits, g, false, Map(h, ins), {}, v)
    {
      SimulationCommutes(Formulas, Bits, h, g, FConst(false), ins, {}, v);
    }
  }

  /** The output formulas (extractOutputs) evaluate to the one-bit outputs of the assigned inputs and key. */
  lemma OutputsAgreeWithSimulation(g: Aig, slots: seq<Slot>, inF: seq<Formula>, keyF: seq<Formula>, env: seq<bool>)
    requires WellFormed(g) && g.nbInputs == |slots|
    requires DataCount(slots) <= |inF| && KeyOffsetsBelow(slots, |keyF|)
    ensures EvalAll(env, OutputValues(Formulas, Values(Formulas, g, FConst(false), Place(slots, inF, keyF), {}), g.outputs))
            == EvalBool(g, Place(slots, EvalAll(env, inF), EvalAll(env, keyF)))
  {
    var st := Values(Formulas, g, FConst(false), Place(slots, inF, keyF), {});
    var ins := Place(slots, EvalAll(env, inF), EvalAll(env, keyF));
    EncodingAgreesWithSimulation(g, slots, inF, keyF, env);
    forall o | 0 <= o < |g.outputs|
      ensures Eval(env, LitValue(Formulas, st, g.outputs[o])) == LitB(g, ins, g.outputs[o])
    {
      var l := g.outputs[o];
      assert EvalAll(env, st)[l.variable] == Values(Bits, g, false, ins, {})[l.variable];
      BitsOps(Eval(env, st[l.variable]), false);
    }
  }

  /*
   * The solver session. A solver is any function from a variable count
   * and a list of asserted formulas to an assignment or to "unsatisfiable".
   */

  type Solver = (nat, seq<Formula>) -> Option<seq<bool>>

  /** A solver that answers correctly: its assignments satisfy the formulas, and it reports unsatisfiable only when no assignment does. */
  ghost predicate SolverSound(solve: Solver)
  {
    forall n: nat, cs: seq<Formula> ::
      match solve(n, cs)
      case Some(env) => |env| == n && Satisfies(env, cs)
      case None => forall env: seq<bool> :: |env| == n ==> !Satisfies(env, cs)
  }

  /** An ezMiniSAT object: the variables created so far and the formulas asserted so far. */
  class EzSat {
    var nbVars: nat
    var assumed: seq<Formula>

    constructor ()
      ensures nbVars == 0 && assumed == []
    {
      nbVars := 0;
      assumed := [];
    }

    /** literal(): a fresh variable. */
    method Literal() returns (l: Formula)
      modifies this
      ensures l == FVar(old(nbVars)) && nbVars == old(nbVars) + 1 && assumed == old(assumed)
    {
      l := FVar(nbVars);
      nbVars := nbVars + 1;
    }

    /** assume(f): f is asserted for every later solve. */
    method Assume(f: Formula)
      modifies this
      ensures assumed == old(assumed) + [f] && nbVars == old(nbVars)
    {
      assumed := assumed + [f];
    }

    /**
     * solve(query, res, assume): whether the asserted formulas are
     * satisfiable, and if so the values of the queried formulas under a
     * satisfying assignment (env, which the caller never sees).
     */
    method Solve(solve: Solver, query: seq<Formula>) returns (ok: bool, res: seq<bool>, ghost env: seq<bool>)
      requires SolverSound(solve)
      ensures ok ==> |env| == nbVars && Satisfies(env, assumed) && res == EvalAll(env, query)
      ensures !ok ==> res == [] && forall e: seq<bool> :: |e| == nbVars ==> !Satisfies(e, assumed)
    {
      var answer := solve(nbVars, assumed);
      match answer {
        case Some(e) =>
          ok, res, env := true, EvalAll(e, query), e;
        case None =>
          ok, res, env := false, [], [];
      }
    }

    /** Creates n fresh variables. */
    method Literals(n: nat) returns (lits: seq<Formula>)
      modifies this
      ensures lits == Vars(old(nbVars), n) && nbVars == old(nbVars) + n && assumed == old(assumed)
    {
      lits := [];
      for i := 0 to n
        invariant lits == Vars(old(nbVars), i) && nbVars == old(nbVars) + i && assumed == old(assumed)
      {
        var l := Literal();
        lits := lits + [l];
      }
    }
  }

  /** The variables first .. first+n-1, in order. */
  function Vars(first: nat, n: nat): (r: seq<Formula>)
    ensures |r| == n
  {
    seq(n, i requires 0 <= i < n => FVar(first + i))
  }

  /** Under an assignment, the variables first .. first+n-1 read the matching slice of it. */
  lemma VarsEval(env: seq<bool>, first: nat, n: nat)
    requires first + n <= |env|
    ensures EvalAll(env, Vars(first, n)) == env[first..first + n]
  {}
}
