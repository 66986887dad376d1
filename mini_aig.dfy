/**
 * The And-Inverter Graph used for fast simulation (mini_aig.hpp, mini_aig.cpp).
 *
 * Variable 0 is the constant, variables 1 .. nbInputs are the inputs and
 * variable nbInputs + 1 + i is the output of node i. A literal stores its
 * variable in the high bits and its polarity in bit 0.
 */
module MiniAig {
  import opened Common

  /**
   * A literal. The source packs it into one unsigned integer, data =
   * 2 * variable + polarity; the model keeps the two parts apart and
   * Data / FromData convert between the forms.
   */
  datatype Lit = Lit(variable: nat, polarity: bool)
  {
    function Data(): nat
    {
      2 * variable + (if polarity then 1 else 0)
    }

    /** Flip the polarity bit only (data ^ 1). */
    function Inv(): (r: Lit)
      ensures r.variable == variable
      ensures r.polarity == !polarity
    {
      Lit(variable, !polarity)
    }

    predicate IsConstant()
    {
      variable == 0
    }
  }

  /** Lit(data): variable in the high bits, polarity in bit 0. */
  function FromData(data: nat): (l: Lit)
    ensures l.Data() == data
  {
    Lit(data / 2, data % 2 == 1)
  }

  lemma DataRoundTrip(l: Lit)
    ensures FromData(l.Data()) == l
  {}

  /** Inv flips bit 0 of the packed form. */
  lemma InvData(l: Lit)
    ensures l.Inv().Data() == if l.Data() % 2 == 0 then l.Data() + 1 else l.Data() - 1
  {}

  function Zero(): (r: Lit)
    ensures r.IsConstant() && !r.polarity && r.Data() == 0
  {
    FromData(0)
  }

  function One(): (r: Lit)
    ensures r.IsConstant() && r.polarity && r.Data() == 1
  {
    FromData(1)
  }

  /** getInput: the positive literal of input number `input`, Lit((input + 1) << 1). */
  function GetInput(input: nat): (r: Lit)
    ensures r.variable == input + 1 && !r.polarity
  {
    FromData((input + 1) * 2)
  }

  /** The positive literal of a variable, as addAnd builds it (d << 1). */
  function PosLit(v: nat): (r: Lit)
    ensures r.variable == v && !r.polarity
  {
    FromData(2 * v)
  }

  lemma InvInvolutive(l: Lit)
    ensures l.Inv().Inv() == l
  {}

  /** zero and one are the only constant literals. */
  lemma ConstantsAreZeroAndOne(l: Lit)
    ensures l.IsConstant() <==> (l == Zero() || l == One())
  {}

  /** An AND node over two literals. */
  datatype AigNode = AigNode(a: Lit, b: Lit)

  /** The structure of a MiniAIG, as a value. */
  datatype Aig = Aig(nbInputs: nat, nodes: seq<AigNode>, outputs: seq<Lit>)
  {
    /** One state slot per variable: the constant, the inputs, the nodes. */
    function NbVars(): nat
    {
      nbInputs + |nodes| + 1
    }
  }

  /** What check() asserts: every fanin of node i is the constant, an input or an earlier node. */
  predicate Acyclic(g: Aig)
  {
    forall i :: 0 <= i < |g.nodes| ==>
      g.nodes[i].a.variable <= g.nbInputs + i && g.nodes[i].b.variable <= g.nbInputs + i
  }

  /** Every fanin refers to some slot of a state of `size` words. */
  predicate FaninsInRange(nodes: seq<AigNode>, size: nat)
  {
    forall i :: 0 <= i < |nodes| ==> nodes[i].a.variable < size && nodes[i].b.variable < size
  }

  predicate OutputsInRange(outputs: seq<Lit>, size: nat)
  {
    forall o :: 0 <= o < |outputs| ==> outputs[o].variable < size
  }

  /** A checked graph whose outputs can be read. */
  predicate WellFormed(g: Aig)
  {
    Acyclic(g) && OutputsInRange(g.outputs, g.NbVars())
  }

  /**
   * The two operations simulation uses: AND and complement. The source
   * evaluates 64 lanes at once on machine words; the SAT encoding reasons
   * about one bit. Both are instances, so evaluation is defined once.
   */
  datatype Algebra<!T> = Algebra(and: (T, T) -> T, not: T -> T)

  function WordAnd(x: Word, y: Word): Word { x & y }
  function WordNot(x: Word): Word { !x }
  function BitAndOp(x: bool, y: bool): bool { x && y }
  function BitNotOp(x: bool): bool { !x }

  const Words: Algebra<Word> := Algebra(WordAnd, WordNot)
  const Bits: Algebra<bool> := Algebra(BitAndOp, BitNotOp)

  lemma WordsOps(x: Word, y: Word)
    ensures Words.and(x, y) == x & y && Words.not(x) == !x
  {}

  lemma BitsOps(x: bool, y: bool)
    ensures Bits.and(x, y) == (x && y) && Bits.not(x) == !x
  {}

  /** The complement mask of the source: t = ~t + 1 for t in {0, 1}. */
  function ToggleMask(t: bool): (m: Word)
    ensures m == if t then AllOnes else 0
  {
    var x: Word := if t then 1 else 0;
    !x + 1
  }

  /** A value, complemented when `t` holds. */
  function Complement<T>(A: Algebra<T>, w: T, t: bool): T
  {
    if t then A.not(w) else w
  }

  lemma ComplementTwice(w: Word, t: bool)
    ensures Complement(Words, Complement(Words, w, t), t) == w
  {}

  lemma ComplementFlip(w: Word, t: bool)
    ensures Complement(Words, w, !t) == !Complement(Words, w, t)
  {
    if t {
      assert Complement(Words, w, !t) == w;
      assert Complement(Words, w, t) == WordNot(w);
      NotNot(w);
    } else {
      assert Complement(Words, w, t) == w;
      assert Complement(Words, w, !t) == WordNot(w);
    }
  }

  lemma NotNot(w: Word)
    ensures !!w == w
  {}

  /** The source complements by xor with the toggle mask. */
  lemma MaskComplements(w: Word, t: bool)
    ensures w ^ ToggleMask(t) == Complement(Words, w, t)
  {
    WordsOps(w, w);
    if t {
      XorAllOnes(w);
    } else {
      XorZero(w);
    }
  }

  lemma XorAllOnes(w: Word)
    ensures w ^ AllOnes == !w
  {}

  lemma XorZero(w: Word)
    ensures w ^ 0 == w
  {}

  /** The same with the mask on the left, as simulateWithToggling writes it. */
  lemma MaskComplementsLeft(w: Word, t: bool)
    ensures ToggleMask(t) ^ w == Complement(Words, w, t)
  {
    XorCommutes(w, ToggleMask(t));
    MaskComplements(w, t);
  }

  lemma XorCommutes(x: Word, y: Word)
    ensures x ^ y == y ^ x
  {}

  /** The value a literal reads from a state: the stored value, complemented for an inverted literal. */
  function LitValue<T>(A: Algebra<T>, st: seq<T>, l: Lit): T
    requires l.variable < |st|
  {
    Complement(A, st[l.variable], l.polarity)
  }

  /** The two polarities of a variable read complementary words. */
  lemma LitValueInv(st: seq<Word>, l: Lit)
    requires l.variable < |st|
    ensures LitValue(Words, st, l.Inv()) == !LitValue(Words, st, l)
  {
    ComplementFlip(st[l.variable], l.polarity);
  }

  /** The output values read from a state, one per declared output, polarity applied. */
  function OutputValues<T>(A: Algebra<T>, st: seq<T>, outputs: seq<Lit>): (r: seq<T>)
    requires OutputsInRange(outputs, |st|)
    ensures |r| == |outputs|
    ensures forall o :: 0 <= o < |outputs| ==> r[o] == LitValue(A, st, outputs[o])
  {
    seq(|outputs|, o requires 0 <= o < |outputs| => LitValue(A, st, outputs[o]))
  }

  /** The value an AND node stores, given the values of its fanin variables, complemented when toggled. */
  function AndNode<T>(A: Algebra<T>, wa: T, wb: T, n: AigNode, t: bool): T
  {
    Complement(A, A.and(Complement(A, wa, n.a.polarity), Complement(A, wb, n.b.polarity)), t)
  }

  /**
   * Reference semantics of a checked graph: the value of variable v when
   * the constant slot holds c0, input slot v holds input v-1, and every
   * variable in `tog` is stored complemented.
   */
  function NodeValue<T>(A: Algebra<T>, g: Aig, c0: T, ins: seq<T>, tog: set<nat>, v: nat): T
    requires Acyclic(g) && |ins| == g.nbInputs && v < g.NbVars()
    decreases v
  {
    if v == 0 then c0
    else if v <= g.nbInputs then Complement(A, ins[v - 1], v in tog)
    else
      var n := g.nodes[v - g.nbInputs - 1];
      AndNode(A, NodeValue(A, g, c0, ins, tog, n.a.variable), NodeValue(A, g, c0, ins, tog, n.b.variable), n, v in tog)
  }

  /** The whole reference state, one value per variable. */
  function Values<T>(A: Algebra<T>, g: Aig, c0: T, ins: seq<T>, tog: set<nat>): (st: seq<T>)
    requires Acyclic(g) && |ins| == g.nbInputs
    ensures |st| == g.NbVars()
    ensures forall v :: 0 <= v < |st| ==> st[v] == NodeValue(A, g, c0, ins, tog, v)
  {
    seq(g.NbVars(), v requires 0 <= v < g.NbVars() => NodeValue(A, g, c0, ins, tog, v))
  }

  /** The state after the input-loading loop: slot v (1 <= v <= |ins|) gets input v-1, complemented if v is in tog. */
  function LoadInputs<T>(A: Algebra<T>, st: seq<T>, ins: seq<T>, tog: set<nat>): (r: seq<T>)
    requires |ins| < |st|
    ensures |r| == |st|
  {
    seq(|st|, v requires 0 <= v < |st| => if 1 <= v <= |ins| then Complement(A, ins[v - 1], v in tog) else st[v])
  }

  /** One more step of the input loop: slot i+1 receives input i. */
  lemma LoadStep<T>(A: Algebra<T>, s0: seq<T>, ins: seq<T>, tog: set<nat>, i: nat)
    requires i < |ins| < |s0|
    ensures LoadInputs(A, s0, ins[..i], tog)[i + 1 := Complement(A, ins[i], i + 1 in tog)] == LoadInputs(A, s0, ins[..i + 1], tog)
  {
    var l := LoadInputs(A, s0, ins[..i], tog)[i + 1 := Complement(A, ins[i], i + 1 in tog)];
    var r := LoadInputs(A, s0, ins[..i + 1], tog);
    forall v | 0 <= v < |s0|
      ensures l[v] == r[v]
    {
      if 1 <= v <= i {
        assert ins[..i][v - 1] == ins[v - 1] == ins[..i + 1][v - 1];
      }
    }
  }

  /** The node loop as the source runs it: node k-1 is evaluated on the state left by nodes 0 .. k-2. */
  function RunNodes<T>(A: Algebra<T>, st: seq<T>, g: Aig, tog: set<nat>, k: nat): (r: seq<T>)
    requires |st| == g.NbVars()
    requires FaninsInRange(g.nodes, |st|)
    requires k <= |g.nodes|
    ensures |r| == |st|
  {
    if k == 0 then st
    else
      var s := RunNodes(A, st, g, tog, k - 1);
      var n := g.nodes[k - 1];
      s[g.nbInputs + k := AndNode(A, s[n.a.variable], s[n.b.variable], n, g.nbInputs + k in tog)]
  }

  /** One more step of the node loop: node k reads its fanins from the state left by the first k nodes. */
  lemma RunNodesStep<T>(A: Algebra<T>, st: seq<T>, g: Aig, tog: set<nat>, k: nat)
    requires |st| == g.NbVars() && FaninsInRange(g.nodes, |st|) && k < |g.nodes|
    ensures var s := RunNodes(A, st, g, tog, k);
            RunNodes(A, st, g, tog, k + 1)
            == s[g.nbInputs + k + 1 := Complement(A, A.and(LitValue(A, s, g.nodes[k].a), LitValue(A, s, g.nodes[k].b)), g.nbInputs + k + 1 in tog)]
  {}

  lemma AcyclicInRange(g: Aig)
    requires Acyclic(g)
    ensures FaninsInRange(g.nodes, g.NbVars())
  {}

  /**
   * On a checked graph the node loop computes the reference values, once the
   * constant and input slots hold them, whatever the node slots held before:
   * after k steps the constant, the inputs and the first k nodes hold their
   * reference values.
   */
  lemma {:induction false} RunNodesComputesValue<T>(A: Algebra<T>, st: seq<T>, g: Aig, c0: T, ins: seq<T>, tog: set<nat>, k: nat, v: nat)
    requires Acyclic(g) && |ins| == g.nbInputs && |st| == g.NbVars()
    requires forall u :: 0 <= u <= g.nbInputs ==> st[u] == NodeValue(A, g, c0, ins, tog, u)
    requires k <= |g.nodes| && v <= g.nbInputs + k
    ensures FaninsInRange(g.nodes, |st|)
    ensures RunNodes(A, st, g, tog, k)[v] == NodeValue(A, g, c0, ins, tog, v)
  {
    AcyclicInRange(g);
    if k > 0 {
      var n := g.nodes[k - 1];
      if v == g.nbInputs + k {
        RunNodesComputesValue(A, st, g, c0, ins, tog, k - 1, n.a.variable);
        RunNodesComputesValue(A, st, g, c0, ins, tog, k - 1, n.b.variable);
      } else {
        RunNodesComputesValue(A, st, g, c0, ins, tog, k - 1, v);
      }
    }
  }

  /** Nodes not yet reached by the loop keep whatever their slots held. */
  lemma {:induction false} RunNodesKeepsLater<T>(A: Algebra<T>, st: seq<T>, g: Aig, tog: set<nat>, k: nat, v: nat)
    requires |st| == g.NbVars() && FaninsInRange(g.nodes, |st|)
    requires k <= |g.nodes| && g.nbInputs + k < v < |st|
    ensures RunNodes(A, st, g, tog, k)[v] == st[v]
  {
    if k > 0 {
      RunNodesKeepsLater(A, st, g, tog, k - 1, v);
    }
  }

  /** The whole node loop: on a checked graph it leaves exactly the reference state. */
  lemma RunNodesComputesValues<T>(A: Algebra<T>, st: seq<T>, g: Aig, c0: T, ins: seq<T>, tog: set<nat>)
    requires Acyclic(g) && |ins| == g.nbInputs && |st| == g.NbVars()
    requires forall u :: 0 <= u <= g.nbInputs ==> st[u] == NodeValue(A, g, c0, ins, tog, u)
    ensures FaninsInRange(g.nodes, |st|)
    ensures RunNodes(A, st, g, tog, |g.nodes|) == Values(A, g, c0, ins, tog)
  {
    AcyclicInRange(g);
    forall v | 0 <= v < |st|
      ensures RunNodes(A, st, g, tog, |g.nodes|)[v] == Values(A, g, c0, ins, tog)[v]
    {
      RunNodesComputesValue(A, st, g, c0, ins, tog, |g.nodes|, v);
    }
  }

  /** Toggling input i is the same as simulating with input i complemented. */
  lemma {:induction false} ToggledInputIsFlippedInput<T>(A: Algebra<T>, g: Aig, c0: T, ins: seq<T>, i: nat, v: nat)
    requires Acyclic(g) && |ins| == g.nbInputs && i < g.nbInputs && v < g.NbVars()
    ensures NodeValue(A, g, c0, ins, {i + 1}, v) == NodeValue(A, g, c0, ins[i := A.not(ins[i])], {}, v)
    decreases v
  {
    if v > g.nbInputs {
      var n := g.nodes[v - g.nbInputs - 1];
      ToggledInputIsFlippedInput(A, g, c0, ins, i, n.a.variable);
      ToggledInputIsFlippedInput(A, g, c0, ins, i, n.b.variable);
    }
  }

  /** h applied to every element. */
  function Map<T, U>(h: T -> U, xs: seq<T>): (r: seq<U>)
    ensures |r| == |xs|
    ensures forall i :: 0 <= i < |xs| ==> r[i] == h(xs[i])
  {
    seq(|xs|, i requires 0 <= i < |xs| => h(xs[i]))
  }

  /**
   * Simulation commutes with any map that preserves AND and complement:
   * evaluating and then mapping is evaluating the mapped inputs.
   */
  /** h maps the operations of A onto those of B. */
  ghost predicate Homomorphism<T(!new), U>(A: Algebra<T>, B: Algebra<U>, h: T -> U)
  {
    (forall x, y :: h(A.and(x, y)) == B.and(h(x), h(y))) && (forall x :: h(A.not(x)) == B.not(h(x)))
  }

  lemma {:induction false} SimulationCommutes<T(!new), U>(A: Algebra<T>, B: Algebra<U>, h: T -> U, g: Aig, c0: T, ins: seq<T>, tog: set<nat>, v: nat)
    requires Acyclic(g) && |ins| == g.nbInputs && v < g.NbVars()
    requires Homomorphism(A, B, h)
    ensures h(NodeValue(A, g, c0, ins, tog, v)) == NodeValue(B, g, h(c0), Map(h, ins), tog, v)
    decreases v
  {
    if 0 < v <= g.nbInputs {
      ComplementCommutes(A, B, h, ins[v - 1], v in tog);
    } else if v > g.nbInputs {
      var n := g.nodes[v - g.nbInputs - 1];
      SimulationCommutes(A, B, h, g, c0, ins, tog, n.a.variable);
      SimulationCommutes(A, B, h, g, c0, ins, tog, n.b.variable);
      var wa := NodeValue(A, g, c0, ins, tog, n.a.variable);
      var wb := NodeValue(A, g, c0, ins, tog, n.b.variable);
      ComplementCommutes(A, B, h, wa, n.a.polarity);
      ComplementCommutes(A, B, h, wb, n.b.polarity);
      ComplementCommutes(A, B, h, A.and(Complement(A, wa, n.a.polarity), Complement(A, wb, n.b.polarity)), v in tog);
    }
  }

  lemma ComplementCommutes<T(!new), U>(A: Algebra<T>, B: Algebra<U>, h: T -> U, w: T, t: bool)
    requires forall x :: h(A.not(x)) == B.not(h(x))
    ensures h(Complement(A, w, t)) == Complement(B, h(w), t)
  {}

  /*
   * One-bit semantics: the evaluation the SAT attack reasons about
   * (constant slot false, nothing toggled).
   */

  /** The value of a literal for one input assignment. */
  function LitB(g: Aig, ins: seq<bool>, l: Lit): bool
    requires Acyclic(g) && |ins| == g.nbInputs && l.variable < g.NbVars()
  {
    l.polarity != NodeValue(Bits, g, false, ins, {}, l.variable)
  }

  /** One-bit simulation of a checked graph: the outputs for one input assignment. */
  function EvalBool(g: Aig, ins: seq<bool>): (r: seq<bool>)
    requires WellFormed(g) && |ins| == g.nbInputs
    ensures |r| == |g.outputs|
    ensures forall o :: 0 <= o < |r| ==> r[o] == LitB(g, ins, g.outputs[o])
  {
    seq(|g.outputs|, o requires 0 <= o < |g.outputs| => LitB(g, ins, g.outputs[o]))
  }

  /** Lane k of a word, as a map from words to bits. */
  function LaneOf(k: bv6): Word -> bool
  {
    (w: Word) => Bit(w, k)
  }

  /** Lane k of each word of a vector. */
  function Lane(ws: seq<Word>, k: bv6): (r: seq<bool>)
    ensures |r| == |ws|
    ensures forall i :: 0 <= i < |ws| ==> r[i] == Bit(ws[i], k)
  {
    Map(LaneOf(k), ws)
  }

  lemma LaneAnd(x: Word, y: Word, k: bv6)
    ensures LaneOf(k)(Words.and(x, y)) == Bits.and(LaneOf(k)(x), LaneOf(k)(y))
  {
    WordsOps(x, y);
    BitAnd(x, y, k);
  }

  lemma LaneNot(x: Word, k: bv6)
    ensures LaneOf(k)(Words.not(x)) == Bits.not(LaneOf(k)(x))
  {
    WordsOps(x, x);
    BitNot(x, k);
  }

  /** Taking lane k preserves AND and complement. */
  lemma LaneIsHomomorphism(k: bv6)
    ensures Homomorphism(Words, Bits, LaneOf(k))
  {
    forall x: Word, y: Word
      ensures LaneOf(k)(Words.and(x, y)) == Bits.and(LaneOf(k)(x), LaneOf(k)(y))
    {
      LaneAnd(x, y, k);
    }
    forall x: Word
      ensures LaneOf(k)(Words.not(x)) == Bits.not(LaneOf(k)(x))
    {
      LaneNot(x, k);
    }
  }

  lemma BitComplement(w: Word, t: bool, k: bv6)
    ensures Bit(Complement(Words, w, t), k) == (t != Bit(w, k))
  {
    WordsOps(w, w);
    BitNot(w, k);
  }

  /** A literal read from the mapped simulation is the mapped literal of the original one. */
  lemma LitCommutes<T(!new), U>(A: Algebra<T>, B: Algebra<U>, h: T -> U, g: Aig, c0: T, ins: seq<T>, l: Lit)
    requires Acyclic(g) && |ins| == g.nbInputs && l.variable < g.NbVars()
    requires Homomorphism(A, B, h)
    ensures h(LitValue(A, Values(A, g, c0, ins, {}), l)) == LitValue(B, Values(B, g, h(c0), Map(h, ins), {}), l)
  {
    SimulationCommutes(A, B, h, g, c0, ins, {}, l.variable);
    ComplementCommutes(A, B, h, NodeValue(A, g, c0, ins, {}, l.variable), l.polarity);
  }

  lemma LaneCommutes(g: Aig, ins: seq<Word>, k: bv6, l: Lit)
    requires Acyclic(g) && |ins| == g.nbInputs && l.variable < g.NbVars()
    ensures LaneOf(k)(LitValue(Words, Values(Words, g, 0, ins, {}), l))
            == LitValue(Bits, Values(Bits, g, LaneOf(k)(0), Map(LaneOf(k), ins), {}), l)
  {
    LaneIsHomomorphism(k);
    LitCommutes(Words, Bits, LaneOf(k), g, 0, ins, l);
  }

  /** Lane k of one literal of the word simulation is that literal in the one-bit simulation of lane k. */
  lemma LitLane(g: Aig, ins: seq<Word>, k: bv6, l: Lit)
    requires Acyclic(g) && |ins| == g.nbInputs && l.variable < g.NbVars()
    ensures Bit(LitValue(Words, Values(Words, g, 0, ins, {}), l), k) == LitB(g, Lane(ins, k), l)
  {
    LaneCommutes(g, ins, k, l);
    BitZero(k);
    assert LaneOf(k)(0) == false;
    assert Map(LaneOf(k), ins) == Lane(ins, k);
    var x := NodeValue(Bits, g, false, Lane(ins, k), {}, l.variable);
    assert Values(Bits, g, false, Lane(ins, k), {})[l.variable] == x;
    BitsOps(x, false);
    assert LitValue(Bits, Values(Bits, g, false, Lane(ins, k), {}), l) == (l.polarity != x);
    assert LaneOf(k)(LitValue(Words, Values(Words, g, 0, ins, {}), l)) == Bit(LitValue(Words, Values(Words, g, 0, ins, {}), l), k);
  }

  /** Lane k of the simulated outputs is the one-bit evaluation of lane k of the inputs. */
  lemma OutputLanes(g: Aig, ins: seq<Word>, k: bv6)
    requires WellFormed(g) && |ins| == g.nbInputs
    ensures Lane(OutputValues(Words, Values(Words, g, 0, ins, {}), g.outputs), k) == EvalBool(g, Lane(ins, k))
  {
    var lanes := Lane(OutputValues(Words, Values(Words, g, 0, ins, {}), g.outputs), k);
    forall o | 0 <= o < |g.outputs|
      ensures lanes[o] == EvalBool(g, Lane(ins, k))[o]
    {
      LitLane(g, ins, k, g.outputs[o]);
    }
  }

  /*
   * Gate construction on graph values. Each builder appends nodes and
   * returns the literal of the result. C++ leaves the evaluation order of
   * the two inner addAnd calls of addXor and addMux unspecified; these
   * builders take them left to right.
   */

  function AndGate(g: Aig, a: Lit, b: Lit): (r: (Aig, Lit))
  {
    (g.(nodes := g.nodes + [AigNode(a, b)]), PosLit(g.NbVars()))
  }

  function NandGate(g: Aig, a: Lit, b: Lit): (r: (Aig, Lit))
  {
    var (g1, x) := AndGate(g, a, b);
    (g1, x.Inv())
  }

  function NorGate(g: Aig, a: Lit, b: Lit): (r: (Aig, Lit))
  {
    AndGate(g, a.Inv(), b.Inv())
  }

  function OrGate(g: Aig, a: Lit, b: Lit): (r: (Aig, Lit))
  {
    var (g1, x) := NorGate(g, a, b);
    (g1, x.Inv())
  }

  function XorGate(g: Aig, a: Lit, b: Lit): (r: (Aig, Lit))
  {
    var (g1, x) := AndGate(g, a, b.Inv());
    var (g2, y) := AndGate(g1, a.Inv(), b);
    OrGate(g2, x, y)
  }

  function XnorGate(g: Aig, a: Lit, b: Lit): (r: (Aig, Lit))
  {
    var (g1, x) := XorGate(g, a, b);
    (g1, x.Inv())
  }

  function MuxGate(g: Aig, s: Lit, a: Lit, b: Lit): (r: (Aig, Lit))
  {
    var (g1, x) := AndGate(g, s.Inv(), a);
    var (g2, y) := AndGate(g1, s, b);
    OrGate(g2, x, y)
  }

  /** addBuffer, and addNot as written: both are AND(a, a). */
  function BufferGate(g: Aig, a: Lit): (r: (Aig, Lit))
  {
    AndGate(g, a, a)
  }

  /** A literal usable as a fanin of the next node of g. */
  predicate InGraph(g: Aig, l: Lit)
  {
    l.variable < g.NbVars()
  }

  /** g2 extends g: same inputs and outputs, and g's nodes are a prefix of g2's. */
  predicate Extends(g2: Aig, g: Aig)
  {
    g2.nbInputs == g.nbInputs && g2.outputs == g.outputs && |g.nodes| <= |g2.nodes|
    && forall i :: 0 <= i < |g.nodes| ==> g2.nodes[i] == g.nodes[i]
  }

  /** A prefix of a checked graph is checked. */
  lemma ExtendKeepsAcyclic(g2: Aig, g: Aig)
    requires Acyclic(g2) && Extends(g2, g)
    ensures Acyclic(g)
  {
    forall i | 0 <= i < |g.nodes|
      ensures g.nodes[i].a.variable <= g.nbInputs + i && g.nodes[i].b.variable <= g.nbInputs + i
    {
      assert g.nodes[i] == g2.nodes[i];
    }
  }

  /** Appending nodes never changes the value of an existing variable. */
  lemma {:induction false} ExtendKeepsValues<T>(A: Algebra<T>, g2: Aig, g: Aig, c0: T, ins: seq<T>, v: nat)
    requires Acyclic(g2) && Acyclic(g) && Extends(g2, g) && |ins| == g.nbInputs && v < g.NbVars()
    ensures NodeValue(A, g2, c0, ins, {}, v) == NodeValue(A, g, c0, ins, {}, v)
    decreases v
  {
    if v > g.nbInputs {
      var n := g.nodes[v - g.nbInputs - 1];
      ExtendKeepsValues(A, g2, g, c0, ins, n.a.variable);
      ExtendKeepsValues(A, g2, g, c0, ins, n.b.variable);
      assert g2.nodes[v - g.nbInputs - 1] == n;
      SharedNodeValue(A, g2, g, c0, ins, v);
    }
  }

  /** One node shared by two graphs: same fanin values, same node value. */
  lemma SharedNodeValue<T>(A: Algebra<T>, g2: Aig, g: Aig, c0: T, ins: seq<T>, v: nat)
    requires Acyclic(g2) && Acyclic(g) && g2.nbInputs == g.nbInputs && |ins| == g.nbInputs
    requires g.nbInputs < v < g.NbVars() && v < g2.NbVars()
    requires g2.nodes[v - g.nbInputs - 1] == g.nodes[v - g.nbInputs - 1]
    requires NodeValue(A, g2, c0, ins, {}, g.nodes[v - g.nbInputs - 1].a.variable)
          == NodeValue(A, g, c0, ins, {}, g.nodes[v - g.nbInputs - 1].a.variable)
    requires NodeValue(A, g2, c0, ins, {}, g.nodes[v - g.nbInputs - 1].b.variable)
          == NodeValue(A, g, c0, ins, {}, g.nodes[v - g.nbInputs - 1].b.variable)
    ensures NodeValue(A, g2, c0, ins, {}, v) == NodeValue(A, g, c0, ins, {}, v)
  {
  }

  /** The AND builder: the new literal evaluates to a AND b, and the graph stays checked. */
  lemma AndGateComputes(g: Aig, a: Lit, b: Lit, ins: seq<bool>)
    requires Acyclic(g) && InGraph(g, a) && InGraph(g, b) && |ins| == g.nbInputs
    ensures Acyclic(AndGate(g, a, b).0) && Extends(AndGate(g, a, b).0, g)
    ensures InGraph(AndGate(g, a, b).0, AndGate(g, a, b).1)
    ensures LitB(AndGate(g, a, b).0, ins, AndGate(g, a, b).1) == (LitB(g, ins, a) && LitB(g, ins, b))
  {
    var (g1, r) := AndGate(g, a, b);
    assert Acyclic(g1) by {
      forall i | 0 <= i < |g1.nodes|
        ensures g1.nodes[i].a.variable <= g1.nbInputs + i && g1.nodes[i].b.variable <= g1.nbInputs + i
      {
        if i < |g.nodes| {
          assert g1.nodes[i] == g.nodes[i];
        }
      }
    }
    ExtendKeepsAcyclic(g1, g);
    ExtendKeepsValues(Bits, g1, g, false, ins, a.variable);
    ExtendKeepsValues(Bits, g1, g, false, ins, b.variable);
  }

  /** Extends is transitive. */
  lemma ExtendsTrans(g3: Aig, g2: Aig, g: Aig)
    requires Extends(g3, g2) && Extends(g2, g)
    ensures Extends(g3, g)
  {
  }

  /** A literal keeps its value when the graph grows. */
  lemma ExtendKeepsLit(g2: Aig, g: Aig, ins: seq<bool>, l: Lit)
    requires Acyclic(g2) && Extends(g2, g) && |ins| == g.nbInputs && InGraph(g, l)
    ensures Acyclic(g) && InGraph(g2, l)
    ensures LitB(g2, ins, l) == LitB(g, ins, l)
  {
    ExtendKeepsAcyclic(g2, g);
    ExtendKeepsValues(Bits, g2, g, false, ins, l.variable);
  }

  lemma NandGateComputes(g: Aig, a: Lit, b: Lit, ins: seq<bool>)
    requires Acyclic(g) && InGraph(g, a) && InGraph(g, b) && |ins| == g.nbInputs
    ensures Acyclic(NandGate(g, a, b).0) && Extends(NandGate(g, a, b).0, g)
    ensures InGraph(NandGate(g, a, b).0, NandGate(g, a, b).1)
    ensures LitB(NandGate(g, a, b).0, ins, NandGate(g, a, b).1) == !(LitB(g, ins, a) && LitB(g, ins, b))
  {
    AndGateComputes(g, a, b, ins);
  }

  lemma NorGateComputes(g: Aig, a: Lit, b: Lit, ins: seq<bool>)
    requires Acyclic(g) && InGraph(g, a) && InGraph(g, b) && |ins| == g.nbInputs
    ensures Acyclic(NorGate(g, a, b).0) && Extends(NorGate(g, a, b).0, g)
    ensures InGraph(NorGate(g, a, b).0, NorGate(g, a, b).1)
    ensures LitB(NorGate(g, a, b).0, ins, NorGate(g, a, b).1) == (!LitB(g, ins, a) && !LitB(g, ins, b))
  {
    AndGateComputes(g, a.Inv(), b.Inv(), ins);
  }

  lemma OrGateComputes(g: Aig, a: Lit, b: Lit, ins: seq<bool>)
    requires Acyclic(g) && InGraph(g, a) && InGraph(g, b) && |ins| == g.nbInputs
    ensures Acyclic(OrGate(g, a, b).0) && Extends(OrGate(g, a, b).0, g)
    ensures InGraph(OrGate(g, a, b).0, OrGate(g, a, b).1)
    ensures LitB(OrGate(g, a, b).0, ins, OrGate(g, a, b).1) == (LitB(g, ins, a) || LitB(g, ins, b))
  {
    NorGateComputes(g, a, b, ins);
  }

  lemma XorGateComputes(g: Aig, a: Lit, b: Lit, ins: seq<bool>)
    requires Acyclic(g) && InGraph(g, a) && InGraph(g, b) && |ins| == g.nbInputs
    ensures Acyclic(XorGate(g, a, b).0) && Extends(XorGate(g, a, b).0, g)
    ensures InGraph(XorGate(g, a, b).0, XorGate(g, a, b).1)
    ensures LitB(XorGate(g, a, b).0, ins, XorGate(g, a, b).1) == (LitB(g, ins, a) != LitB(g, ins, b))
  {
    var (g1, x) := AndGate(g, a, b.Inv());
    AndGateComputes(g, a, b.Inv(), ins);
    ExtendKeepsLit(g1, g, ins, a);
    ExtendKeepsLit(g1, g, ins, b);
    var (g2, y) := AndGate(g1, a.Inv(), b);
    AndGateComputes(g1, a.Inv(), b, ins);
    ExtendKeepsLit(g2, g1, ins, x);
    OrGateComputes(g2, x, y, ins);
    ExtendsTrans(g2, g1, g);
    ExtendsTrans(OrGate(g2, x, y).0, g2, g);
  }

  lemma XnorGateComputes(g: Aig, a: Lit, b: Lit, ins: seq<bool>)
    requires Acyclic(g) && InGraph(g, a) && InGraph(g, b) && |ins| == g.nbInputs
    ensures Acyclic(XnorGate(g, a, b).0) && Extends(XnorGate(g, a, b).0, g)
    ensures InGraph(XnorGate(g, a, b).0, XnorGate(g, a, b).1)
    ensures LitB(XnorGate(g, a, b).0, ins, XnorGate(g, a, b).1) == (LitB(g, ins, a) == LitB(g, ins, b))
  {
    XorGateComputes(g, a, b, ins);
  }

  /** Mux(s, a, b) selects b when s is true and a otherwise. */
  lemma MuxGateComputes(g: Aig, s: Lit, a: Lit, b: Lit, ins: seq<bool>)
    requires Acyclic(g) && InGraph(g, s) && InGraph(g, a) && InGraph(g, b) && |ins| == g.nbInputs
    ensures Acyclic(MuxGate(g, s, a, b).0) && Extends(MuxGate(g, s, a, b).0, g)
    ensures InGraph(MuxGate(g, s, a, b).0, MuxGate(g, s, a, b).1)
    ensures LitB(MuxGate(g, s, a, b).0, ins, MuxGate(g, s, a, b).1) == if LitB(g, ins, s) then LitB(g, ins, b) else LitB(g, ins, a)
  {
    var (g1, x) := AndGate(g, s.Inv(), a);
    AndGateComputes(g, s.Inv(), a, ins);
    ExtendKeepsLit(g1, g, ins, s);
    ExtendKeepsLit(g1, g, ins, b);
    var (g2, y) := AndGate(g1, s, b);
    AndGateComputes(g1, s, b, ins);
    ExtendKeepsLit(g2, g1, ins, x);
    OrGateComputes(g2, x, y, ins);
    ExtendsTrans(g2, g1, g);
    ExtendsTrans(OrGate(g2, x, y).0, g2, g);
  }

  /** addBuffer and addNot as written: the new literal evaluates to a itself, not to its complement. */
  lemma BufferGateComputes(g: Aig, a: Lit, ins: seq<bool>)
    requires Acyclic(g) && InGraph(g, a) && |ins| == g.nbInputs
    ensures Acyclic(BufferGate(g, a).0) && Extends(BufferGate(g, a).0, g)
    ensures InGraph(BufferGate(g, a).0, BufferGate(g, a).1)
    ensures LitB(BufferGate(g, a).0, ins, BufferGate(g, a).1) == LitB(g, ins, a)
  {
    AndGateComputes(g, a, a, ins);
  }

  /** The inverter addNot evidently means: AND(~a, ~a). */
  function NotGate(g: Aig, a: Lit): (r: (Aig, Lit))
  {
    AndGate(g, a.Inv(), a.Inv())
  }

  lemma NotGateComputes(g: Aig, a: Lit, ins: seq<bool>)
    requires Acyclic(g) && InGraph(g, a) && |ins| == g.nbInputs
    ensures Acyclic(NotGate(g, a).0) && Extends(NotGate(g, a).0, g)
    ensures InGraph(NotGate(g, a).0, NotGate(g, a).1)
    ensures LitB(NotGate(g, a).0, ins, NotGate(g, a).1) == !LitB(g, ins, a)
  {
    AndGateComputes(g, a.Inv(), a.Inv(), ins);
  }

  /** addNot as written is not an inverter: on a graph with one input it returns the input's own value. */
  lemma AddNotIsNotAnInverter()
    ensures var g := Aig(1, [], []);
            LitB(BufferGate(g, GetInput(0)).0, [true], BufferGate(g, GetInput(0)).1) == true
  {
    BufferGateComputes(Aig(1, [], []), GetInput(0), [true]);
  }

  /** The word a literal reads from a state: the stored word xor the polarity mask. */
  method ReadLit(st: seq<Word>, a: Lit) returns (r: Word)
    requires a.variable < |st|
    ensures r == LitValue(Words, st, a)
  {
    MaskComplements(st[a.variable], a.polarity);
    r := st[a.variable] ^ ToggleMask(a.polarity);
  }

  /** The simulator: the node array, the outputs and the state buffer of one word per variable. */
  class MiniAIG
  {
    const nbInputs: nat
    var nodes: seq<AigNode>
    var outputs: seq<Lit>
    var state: seq<Word>

    /** state_ has one word per variable. */
    ghost predicate Valid()
      reads this
    {
      |state| == nbInputs + |nodes| + 1
    }

    function Graph(): (g: Aig)
      reads this
      ensures g.nbInputs == nbInputs && g.nodes == nodes && g.outputs == outputs
    {
      Aig(nbInputs, nodes, outputs)
    }

    constructor (nbInputs: nat)
      ensures Valid()
      ensures this.nbInputs == nbInputs && nodes == [] && outputs == []
      ensures forall v :: 0 <= v < |state| ==> state[v] == 0
    {
      this.nbInputs := nbInputs;
      nodes := [];
      outputs := [];
      state := seq(nbInputs + 1, _ => 0);
    }

    method AddOutput(l: Lit)
      modifies this
      ensures outputs == old(outputs) + [l]
      ensures nodes == old(nodes) && state == old(state)
    {
      outputs := outputs + [l];
    }

    /** Clear the state and size it to one zero word per variable. */
    method ResetState()
      modifies this
      ensures Valid()
      ensures forall v :: 0 <= v < |state| ==> state[v] == 0
      ensures nodes == old(nodes) && outputs == old(outputs)
    {
      state := [];
      state := seq(nbInputs + |nodes| + 1, _ => 0);
    }

    /** Append an AND node; the positive literal of its variable is returned. */
    method AddAnd(a: Lit, b: Lit) returns (r: Lit)
      requires Valid()
      modifies this
      ensures Valid()
      ensures (Graph(), r) == AndGate(old(Graph()), a, b)
      ensures r == PosLit(nbInputs + |old(nodes)| + 1)
      ensures state == old(state) + [0]
    {
      var d := |nodes| + nbInputs + 1;
      nodes := nodes + [AigNode(a, b)];
      state := state + [0];
      r := PosLit(d);
    }

    method AddNand(a: Lit, b: Lit) returns (r: Lit)
      requires Valid()
      modifies this
      ensures Valid() && (Graph(), r) == NandGate(old(Graph()), a, b)
    {
      r := AddAnd(a, b);
      r := r.Inv();
    }

    method AddNor(a: Lit, b: Lit) returns (r: Lit)
      requires Valid()
      modifies this
      ensures Valid() && (Graph(), r) == NorGate(old(Graph()), a, b)
    {
      r := AddAnd(a.Inv(), b.Inv());
    }

    method AddOr(a: Lit, b: Lit) returns (r: Lit)
      requires Valid()
      modifies this
      ensures Valid() && (Graph(), r) == OrGate(old(Graph()), a, b)
    {
      r := AddNor(a, b);
      r := r.Inv();
    }

    method AddXor(a: Lit, b: Lit) returns (r: Lit)
      requires Valid()
      modifies this
      ensures Valid() && (Graph(), r) == XorGate(old(Graph()), a, b)
    {
      var x := AddAnd(a, b.Inv());
      var y := AddAnd(a.Inv(), b);
      r := AddOr(x, y);
    }

    method AddXnor(a: Lit, b: Lit) returns (r: Lit)
      requires Valid()
      modifies this
      ensures Valid() && (Graph(), r) == XnorGate(old(Graph()), a, b)
    {
      r := AddXor(a, b);
      r := r.Inv();
    }

    method AddMux(s: Lit, a: Lit, b: Lit) returns (r: Lit)
      requires Valid()
      modifies this
      ensures Valid() && (Graph(), r) == MuxGate(old(Graph()), s, a, b)
    {
      var x := AddAnd(s.Inv(), a);
      var y := AddAnd(s, b);
      r := AddOr(x, y);
    }

    /** A non-synonymous buffer: AND(a, a). */
    method AddBuffer(a: Lit) returns (r: Lit)
      requires Valid()
      modifies this
      ensures Valid() && (Graph(), r) == BufferGate(old(Graph()), a)
    {
      r := AddAnd(a, a);
    }

    /** Documented as a non-synonymous not, but builds the same AND(a, a) as AddBuffer. */
    method AddNot(a: Lit) returns (r: Lit)
      requires Valid()
      modifies this
      ensures Valid() && (Graph(), r) == BufferGate(old(Graph()), a)
    {
      r := AddAnd(a, a);
    }

    /** getValue: the stored word xor the polarity mask, i.e. the word the literal reads. */
    method GetValue(a: Lit) returns (r: Word)
      requires a.variable < |state|
      ensures r == LitValue(Words, state, a)
    {
      r := ReadLit(state, a);
    }

    /** setValue: store a word so that the literal reads back as `val`; no other slot changes. */
    method SetValue(a: Lit, val: Word)
      requires a.variable < |state|
      modifies this
      ensures state == old(state)[a.variable := Complement(Words, val, a.polarity)]
      ensures LitValue(Words, state, a) == val
      ensures nodes == old(nodes) && outputs == old(outputs)
    {
      WordsOps(val, val);
      ComplementTwice(val, a.polarity);
      state := state[a.variable := if a.polarity then !val else val];
    }

    /** check(): the state size, and every fanin refers to the constant, an input or an earlier node. */
    method Check() returns (ok: bool)
      ensures ok <==> Valid() && Acyclic(Graph())
    {
      if |state| != |nodes| + nbInputs + 1 {
        return false;
      }
      var i := 0;
      while i < |nodes|
        invariant 0 <= i <= |nodes|
        invariant forall j :: 0 <= j < i ==> nodes[j].a.variable < |state| && nodes[j].b.variable < |state|
      {
        if nodes[i].a.variable >= |state| || nodes[i].b.variable >= |state| {
          return false;
        }
        i := i + 1;
      }
      var marked := new bool[nbInputs + |state| + 1](_ => false);
      i := 0;
      while i < nbInputs + 1
        invariant 0 <= i <= nbInputs + 1
        invariant forall v :: 0 <= v < marked.Length ==> marked[v] == (v < i)
      {
        marked[i] := true;
        i := i + 1;
      }
      i := 0;
      while i < |nodes|
        invariant 0 <= i <= |nodes|
        invariant forall v :: 0 <= v < marked.Length ==> marked[v] == (v < nbInputs + 1 + i)
        invariant forall j :: 0 <= j < i ==> nodes[j].a.variable <= nbInputs + j && nodes[j].b.variable <= nbInputs + j
      {
        if !marked[nodes[i].a.variable] || !marked[nodes[i].b.variable] {
          return false;
        }
        marked[i + nbInputs + 1] := true;
        i := i + 1;
      }
      return true;
    }

    /** getOutputValues: one word per declared output, in order, polarity applied. */
    method GetOutputValues() returns (r: seq<Word>)
      requires OutputsInRange(outputs, |state|)
      ensures r == OutputValues(Words, state, outputs)
    {
      r := [];
      for o := 0 to |outputs|
        invariant |r| == o
        invariant forall p :: 0 <= p < o ==> r[p] == LitValue(Words, state, outputs[p])
      {
        var w := GetValue(outputs[o]);
        r := r + [w];
      }
    }

    /**
     * simulate: the constant slot gets 0, the inputs are copied, then the
     * nodes are evaluated in index order on the state as it stands (a
     * forward fanin would read a stale word).
     */
    method Simulate(inputVals: seq<Word>) returns (r: seq<Word>)
      requires Valid()
      requires |inputVals| == nbInputs
      requires FaninsInRange(nodes, |state|) && OutputsInRange(outputs, |state|)
      modifies this
      ensures Valid() && nodes == old(nodes) && outputs == old(outputs)
      ensures state == RunNodes(Words, LoadInputs(Words, old(state)[0 := 0], inputVals, {}), Graph(), {}, |nodes|)
      ensures Acyclic(Graph()) ==> state == Values(Words, Graph(), 0, inputVals, {})
      ensures r == OutputValues(Words, state, outputs)
    {
      var loaded := CopyInputs(state[0 := 0], inputVals);
      state := EvalNodes(loaded, Graph());
      if Acyclic(Graph()) {
        LoadedInputsHold(Words, old(state)[0 := 0], Graph(), inputVals, {});
        RunNodesComputesValues(Words, loaded, Graph(), 0, inputVals, {});
      }
      r := GetOutputValues();
    }

    /**
     * simulateWithToggling: like Simulate, but the variable of every listed
     * literal is stored complemented, and the constant slot is left as it is.
     */
    method SimulateWithToggling(inputVals: seq<Word>, toggling: seq<Lit>) returns (r: seq<Word>)
      requires Valid() && Acyclic(Graph()) && OutputsInRange(outputs, |state|)
      requires forall t :: 0 <= t < |toggling| ==> !toggling[t].IsConstant() && toggling[t].variable < nbInputs + |state| + 1
      requires forall s, t :: 0 <= s < t < |toggling| ==> toggling[s].variable != toggling[t].variable
      requires |inputVals| == nbInputs
      modifies this
      ensures Valid() && nodes == old(nodes) && outputs == old(outputs)
      ensures state == Values(Words, Graph(), old(state)[0], inputVals, ToggledVars(toggling))
      ensures r == OutputValues(Words, state, outputs)
    {
      var toggles := ToggleFlags(nbInputs + |state| + 1, toggling);
      ghost var tog := ToggledVars(toggling);
      var loaded := LoadToggledInputs(state, inputVals, toggles[..], tog);
      AcyclicInRange(Graph());
      state := EvalToggledNodes(loaded, Graph(), toggles[..], tog);
      LoadedInputsHold(Words, old(state), Graph(), inputVals, tog);
      RunNodesComputesValues(Words, loaded, Graph(), old(state)[0], inputVals, tog);
      r := GetOutputValues();
    }
  }

  /**
   * The toggle table of simulateWithToggling: one flag per slot, set for the
   * variable of every listed literal. The source asserts that no constant
   * is listed and no variable is listed twice.
   */
  method ToggleFlags(size: nat, toggling: seq<Lit>) returns (toggles: array<bool>)
    requires forall t :: 0 <= t < |toggling| ==> !toggling[t].IsConstant() && toggling[t].variable < size
    requires forall s, t :: 0 <= s < t < |toggling| ==> toggling[s].variable != toggling[t].variable
    ensures fresh(toggles) && toggles.Length == size
    ensures forall v :: 0 <= v < size ==> toggles[v] == (v in ToggledVars(toggling))
  {
    toggles := new bool[size](_ => false);
    for t := 0 to |toggling|
      invariant forall v :: 0 <= v < size ==> toggles[v] == (v in ToggledVars(toggling[..t]))
    {
      assert toggling[..t + 1] == toggling[..t] + [toggling[t]];
      toggles[toggling[t].variable] := true;
    }
    assert toggling[..|toggling|] == toggling;
  }

  /** After the input loop the constant and input slots hold their reference values. */
  lemma LoadedInputsHold<T>(A: Algebra<T>, st: seq<T>, g: Aig, ins: seq<T>, tog: set<nat>)
    requires Acyclic(g) && |ins| == g.nbInputs && |st| == g.NbVars()
    ensures forall u :: 0 <= u <= g.nbInputs ==> LoadInputs(A, st, ins, tog)[u] == NodeValue(A, g, st[0], ins, tog, u)
  {}

  /** The input loop of simulate: slot v (1 <= v <= |ins|) receives input v-1. */
  method CopyInputs(st: seq<Word>, ins: seq<Word>) returns (r: seq<Word>)
    requires |ins| < |st|
    ensures r == LoadInputs(Words, st, ins, {})
  {
    r := st;
    for i := 0 to |ins|
      invariant r == LoadInputs(Words, st, ins[..i], {})
    {
      LoadStep(Words, st, ins, {}, i);
      r := r[i + 1 := ins[i]];
    }
    assert ins[..|ins|] == ins;
  }

  /** The input loop of simulateWithToggling: input v-1 goes to slot v xor its toggle mask. */
  method LoadToggledInputs(st: seq<Word>, ins: seq<Word>, toggles: seq<bool>, ghost tog: set<nat>) returns (r: seq<Word>)
    requires |ins| < |st| && |ins| < |toggles|
    requires forall v :: 0 <= v < |toggles| ==> toggles[v] == (v in tog)
    ensures r == LoadInputs(Words, st, ins, tog)
  {
    r := st;
    for i := 0 to |ins|
      invariant r == LoadInputs(Words, st, ins[..i], tog)
    {
      var t := toggles[i + 1];
      ToggledLoadStep(st, ins, tog, i, t);
      r := r[i + 1 := ToggleMask(t) ^ ins[i]];
    }
    assert ins[..|ins|] == ins;
  }

  lemma ToggledLoadStep(st: seq<Word>, ins: seq<Word>, tog: set<nat>, i: nat, t: bool)
    requires i < |ins| < |st| && t == (i + 1 in tog)
    ensures LoadInputs(Words, st, ins[..i], tog)[i + 1 := ToggleMask(t) ^ ins[i]] == LoadInputs(Words, st, ins[..i + 1], tog)
  {
    LoadStep(Words, st, ins, tog, i);
    MaskComplementsLeft(ins[i], t);
  }

  /** The node loop of simulate: each node stores the AND of the words its fanin literals read. */
  method EvalNodes(st: seq<Word>, g: Aig) returns (r: seq<Word>)
    requires |st| == g.NbVars() && FaninsInRange(g.nodes, |st|)
    ensures r == RunNodes(Words, st, g, {}, |g.nodes|)
  {
    r := st;
    for i := 0 to |g.nodes|
      invariant r == RunNodes(Words, st, g, {}, i)
    {
      var wa := ReadLit(r, g.nodes[i].a);
      var wb := ReadLit(r, g.nodes[i].b);
      WordsOps(wa, wb);
      RunNodesStep(Words, st, g, {}, i);
      r := r[i + g.nbInputs + 1 := wa & wb];
    }
  }

  /** The node loop of simulateWithToggling: the AND is xored with the node's toggle mask. */
  method EvalToggledNodes(st: seq<Word>, g: Aig, toggles: seq<bool>, ghost tog: set<nat>) returns (r: seq<Word>)
    requires |st| == g.NbVars() && FaninsInRange(g.nodes, |st|) && |st| <= |toggles|
    requires forall v :: 0 <= v < |toggles| ==> toggles[v] == (v in tog)
    ensures r == RunNodes(Words, st, g, tog, |g.nodes|)
  {
    r := st;
    for i := 0 to |g.nodes|
      invariant r == RunNodes(Words, st, g, tog, i)
    {
      var wa := ReadLit(r, g.nodes[i].a);
      var wb := ReadLit(r, g.nodes[i].b);
      var t := toggles[i + g.nbInputs + 1];
      var andVal := wa & wb;
      WordsOps(wa, wb);
      RunNodesStep(Words, st, g, tog, i);
      MaskComplementsLeft(andVal, t);
      r := r[i + g.nbInputs + 1 := ToggleMask(t) ^ andVal];
    }
  }

  /** The variables a toggle list names; either polarity of a literal toggles its variable. */
  function ToggledVars(toggling: seq<Lit>): (vs: set<nat>)
    ensures forall t :: 0 <= t < |toggling| ==> toggling[t].variable in vs
    ensures forall v :: v in vs ==> exists t :: 0 <= t < |toggling| && toggling[t].variable == v
  {
    set t | 0 <= t < |toggling| :: toggling[t].variable
  }

  /** Toggling a variable never affects the variables before it. */
  lemma {:induction false} ToggleAboveIgnored<T>(A: Algebra<T>, g: Aig, c0: T, ins: seq<T>, tog: set<nat>, w: nat, u: nat)
    requires Acyclic(g) && |ins| == g.nbInputs && u < w && u < g.NbVars()
    ensures NodeValue(A, g, c0, ins, tog, u) == NodeValue(A, g, c0, ins, tog - {w}, u)
    decreases u
  {
    if u > g.nbInputs {
      var n := g.nodes[u - g.nbInputs - 1];
      ToggleAboveIgnored(A, g, c0, ins, tog, w, n.a.variable);
      ToggleAboveIgnored(A, g, c0, ins, tog, w, n.b.variable);
    }
  }

  /**
   * A toggled variable stores the complement of what it would store
   * untoggled, given the same toggles elsewhere: a complemented input word
   * or a complemented AND.
   */
  lemma ToggleComplements<T>(A: Algebra<T>, g: Aig, c0: T, ins: seq<T>, tog: set<nat>, v: nat)
    requires Acyclic(g) && |ins| == g.nbInputs && 0 < v < g.NbVars()
    ensures NodeValue(A, g, c0, ins, tog, v) == Complement(A, NodeValue(A, g, c0, ins, tog - {v}, v), v in tog)
  {
    if v > g.nbInputs {
      var n := g.nodes[v - g.nbInputs - 1];
      ToggleAboveIgnored(A, g, c0, ins, tog, v, n.a.variable);
      ToggleAboveIgnored(A, g, c0, ins, tog, v, n.b.variable);
    }
  }
}
