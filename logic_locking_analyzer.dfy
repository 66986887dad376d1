/**
 * The analysis kernels of the logic locking analyzer (logic_locking_analyzer.cpp):
 * the translation of one netlist cell into And-Inverter Graph gates, the
 * corruption data computed from simulated output words, and the pairwise
 * security test with the enumeration of secure pairs.
 *
 * Simulation results are taken as given words: the caller simulates the
 * graph (see MiniAig) and passes, per test vector, one word per output.
 */
module Analyzer {
  import opened Common
  import opened MiniAig
  import opened Sensitivity

  /*
   * Cell translation (cell_to_aig).
   */

  /** A single-bit signal: one of the constant states, or a bit of a wire. */
  datatype SigBit = S0 | S1 | Sx | Sz | Sa | WireBit(id: nat)

  /** The input ports cell_to_aig looks at. */
  datatype PortId = A | B | C | D | S

  /**
   * The cell types cell_to_aig dispatches on. The Coarse* types are the
   * word-level cells ($not, $pos, $and, ...) used here one bit wide, the
   * Gate* types the fine-grained gates ($_NOT_, $_BUF_, $_AND_, ...); any
   * other type carries its name.
   */
  datatype CellType =
    | CoarseNot | CoarsePos | CoarseAnd | CoarseOr | CoarseXor | CoarseXnor | CoarseMux
    | GateNot | GateBuf | GateAnd | GateNand | GateOr | GateNor | GateXor | GateXnor
    | GateAndNot | GateOrNot | GateMux | GateNmux
    | GateAoi3 | GateOai3 | GateAoi4 | GateOai4
    | Other(typeName: string)

  /** The identifier Yosys gives each cell type. */
  function IdString(t: CellType): (id: string)
    ensures t.Other? ==> id == t.typeName
  {
    match t
    case CoarseNot => "$not"
    case CoarsePos => "$pos"
    case CoarseAnd => "$and"
    case CoarseOr => "$or"
    case CoarseXor => "$xor"
    case CoarseXnor => "$xnor"
    case CoarseMux => "$mux"
    case GateNot => "$_NOT_"
    case GateBuf => "$_BUF_"
    case GateAnd => "$_AND_"
    case GateNand => "$_NAND_"
    case GateOr => "$_OR_"
    case GateNor => "$_NOR_"
    case GateXor => "$_XOR_"
    case GateXnor => "$_XNOR_"
    case GateAndNot => "$_ANDNOT_"
    case GateOrNot => "$_ORNOT_"
    case GateMux => "$_MUX_"
    case GateNmux => "$_NMUX_"
    case GateAoi3 => "$_AOI3_"
    case GateOai3 => "$_OAI3_"
    case GateAoi4 => "$_AOI4_"
    case GateOai4 => "$_OAI4_"
    case Other(name) => name
  }

  /**
   * A cell: its name, its type, whether the host library can evaluate the
   * type, its input ports (each a signal of some width) and its one-bit
   * output Y.
   */
  datatype Cell = Cell(name: string, cellType: CellType, evaluable: bool, ports: map<PortId, seq<SigBit>>, y: SigBit)

  /** has_valid_port: the port is connected, one bit wide, and already has a literal. */
  predicate HasValidPort(cell: Cell, p: PortId, wires: map<SigBit, Lit>)
  {
    p in cell.ports && |cell.ports[p]| == 1 && cell.ports[p][0] in wires
  }

  /** The literal read for a port, when the port is valid. */
  function Sig(cell: Cell, p: PortId, wires: map<SigBit, Lit>): (l: Lit)
    ensures HasValidPort(cell, p, wires) ==> l == wires[cell.ports[p][0]]
  {
    if HasValidPort(cell, p, wires) then wires[cell.ports[p][0]] else Zero()
  }

  /** The types cell_to_aig translates. */
  predicate Supported(t: CellType)
  {
    !t.Other?
  }

  /** The input ports a translated type needs before its gates are built. */
  function Needs(t: CellType): (ps: set<PortId>)
    requires Supported(t)
    ensures A in ps
  {
    match t
    case CoarseNot | GateNot | CoarsePos | GateBuf => {A}
    case CoarseMux | GateMux | GateNmux => {A, B, S}
    case GateAoi3 | GateOai3 => {A, B, C}
    case GateAoi4 | GateOai4 => {A, B, C, D}
    case _ => {A, B}
  }

  /**
   * The documented function of each cell type, on the values of its
   * inputs: the reference the translation is checked against.
   */
  function CellTruth(t: CellType, a: bool, b: bool, c: bool, d: bool, s: bool): bool
    requires Supported(t)
  {
    match t
    case CoarseNot | GateNot => !a
    case CoarsePos | GateBuf => a
    case CoarseAnd | GateAnd => a && b
    case GateNand => !(a && b)
    case CoarseOr | GateOr => a || b
    case GateNor => !(a || b)
    case CoarseXor | GateXor => a != b
    case CoarseXnor | GateXnor => a == b
    case GateAndNot => a && !b
    case GateOrNot => a || !b
    case CoarseMux | GateMux => if s then b else a
    case GateNmux => !(if s then b else a)
    case GateAoi3 => !((a && b) || c)
    case GateOai3 => !((a || b) && c)
    case GateAoi4 => !((a && b) || (c && d))
    case GateOai4 => !((a || b) && (c || d))
  }

  /**
   * The mux branch's inversion test as written: it asks whether the type is
   * `$_NMUX`, a name without the trailing underscore that no cell type has.
   */
  predicate InvertsMuxAsWritten(t: CellType)
  {
    IdString(t) == "$_NMUX"
  }

  /** No type that reaches the mux branch passes the test as written, so $_NMUX_ is never inverted. */
  lemma MuxNeverInvertedAsWritten(t: CellType)
    requires t == CoarseMux || t == GateMux || t == GateNmux
    ensures !InvertsMuxAsWritten(t)
  {
    assert IdString(t)[|IdString(t)| - 1] == '_' || IdString(t) == "$mux";
  }

  /** The mux branch as written: the mux literal itself, for $_NMUX_ as for $_MUX_. */
  function MuxBranchAsWritten(g: Aig, t: CellType, s: Lit, a: Lit, b: Lit): (r: (Aig, Lit))
    requires t == CoarseMux || t == GateMux || t == GateNmux
    ensures r == MuxGate(g, s, a, b)
  {
    MuxNeverInvertedAsWritten(t);
    var (g1, y) := MuxGate(g, s, a, b);
    (g1, if InvertsMuxAsWritten(t) then y.Inv() else y)
  }

  /**
   * A $_NMUX_ cell translated as written computes the mux, not its
   * complement: with all three inputs false the graph says false where
   * the cell drives true.
   */
  lemma NmuxAsWrittenIsNotInverted()
    ensures var g := Aig(3, [], []);
            var r := MuxBranchAsWritten(g, GateNmux, GetInput(0), GetInput(1), GetInput(2));
            Acyclic(r.0) && InGraph(r.0, r.1)
            && LitB(r.0, [false, false, false], r.1) != CellTruth(GateNmux, false, false, false, false, false)
  {
    var g := Aig(3, [], []);
    MuxGateComputes(g, GetInput(0), GetInput(1), GetInput(2), [false, false, false]);
  }

  /**
   * The gates built for a translated type, from the literals of A, B, C, D
   * and S; $_NMUX_ gets the complement of the mux. C++ leaves the order of
   * the two inner builder calls of AOI4/OAI4 unspecified; they are taken
   * left to right.
   */
  function Build(g: Aig, t: CellType, a: Lit, b: Lit, c: Lit, d: Lit, s: Lit): (r: (Aig, Lit))
    requires Supported(t)
  {
    match t
    case CoarseNot | GateNot => BufferGate(g, a.Inv())
    case CoarsePos | GateBuf => BufferGate(g, a)
    case CoarseAnd | GateAnd => AndGate(g, a, b)
    case GateNand => NandGate(g, a, b)
    case CoarseOr | GateOr => OrGate(g, a, b)
    case GateNor => NorGate(g, a, b)
    case CoarseXor | GateXor => XorGate(g, a, b)
    case CoarseXnor | GateXnor => XnorGate(g, a, b)
    case GateAndNot => AndGate(g, a, b.Inv())
    case GateOrNot => OrGate(g, a, b.Inv())
    case CoarseMux | GateMux => MuxGate(g, s, a, b)
    case GateNmux => var (g1, y) := MuxGate(g, s, a, b); (g1, y.Inv())
    case GateAoi3 => var (g1, x) := AndGate(g, a, b); NorGate(g1, x, c)
    case GateOai3 => var (g1, x) := OrGate(g, a, b); NandGate(g1, x, c)
    case GateAoi4 => var (g1, x) := AndGate(g, a, b); var (g2, y) := AndGate(g1, c, d); NorGate(g2, x, y)
    case GateOai4 => var (g1, x) := OrGate(g, a, b); var (g2, y) := OrGate(g1, c, d); NandGate(g2, x, y)
  }

  /** g2 is a checked extension of g in which y evaluates to v. */
  predicate Delivers(g2: Aig, g: Aig, ins: seq<bool>, y: Lit, v: bool)
    requires |ins| == g.nbInputs
  {
    Acyclic(g2) && Extends(g2, g) && InGraph(g2, y) && LitB(g2, ins, y) == v
  }

  /** The one-gate and inverted-input cases. */
  lemma SimpleBuildComputes(g: Aig, t: CellType, a: Lit, b: Lit, ins: seq<bool>)
    requires Acyclic(g) && InGraph(g, a) && InGraph(g, b) && |ins| == g.nbInputs
    requires t in {CoarseNot, GateNot, CoarsePos, GateBuf, CoarseAnd, GateAnd, GateNand, CoarseOr, GateOr, GateNor,
                   CoarseXor, GateXor, CoarseXnor, GateXnor, GateAndNot, GateOrNot}
    ensures Delivers(Build(g, t, a, b, a, a, a).0, g, ins, Build(g, t, a, b, a, a, a).1,
                     CellTruth(t, LitB(g, ins, a), LitB(g, ins, b), false, false, false))
  {
    match t
    case CoarseNot | GateNot => BufferGateComputes(g, a.Inv(), ins);
    case CoarsePos | GateBuf => BufferGateComputes(g, a, ins);
    case CoarseAnd | GateAnd => AndGateComputes(g, a, b, ins);
    case GateNand => NandGateComputes(g, a, b, ins);
    case CoarseOr | GateOr => OrGateComputes(g, a, b, ins);
    case GateNor => NorGateComputes(g, a, b, ins);
    case CoarseXor | GateXor => XorGateComputes(g, a, b, ins);
    case CoarseXnor | GateXnor => XnorGateComputes(g, a, b, ins);
    case GateAndNot => AndGateComputes(g, a, b.Inv(), ins);
    case GateOrNot => OrGateComputes(g, a, b.Inv(), ins);
  }

  /** Mux cells select B when S is set and A otherwise; $_NMUX_ is the complement. */
  lemma MuxBuildComputes(g: Aig, t: CellType, a: Lit, b: Lit, s: Lit, ins: seq<bool>)
    requires Acyclic(g) && InGraph(g, a) && InGraph(g, b) && InGraph(g, s) && |ins| == g.nbInputs
    requires t == CoarseMux || t == GateMux || t == GateNmux
    ensures Delivers(Build(g, t, a, b, a, a, s).0, g, ins, Build(g, t, a, b, a, a, s).1,
                     CellTruth(t, LitB(g, ins, a), LitB(g, ins, b), false, false, LitB(g, ins, s)))
  {
    MuxGateComputes(g, s, a, b, ins);
  }

  /** AOI3 = NOR(AND(a, b), c) and OAI3 = NAND(OR(a, b), c). */
  lemma Build3Computes(g: Aig, t: CellType, a: Lit, b: Lit, c: Lit, ins: seq<bool>)
    requires Acyclic(g) && InGraph(g, a) && InGraph(g, b) && InGraph(g, c) && |ins| == g.nbInputs
    requires t == GateAoi3 || t == GateOai3
    ensures Delivers(Build(g, t, a, b, c, a, a).0, g, ins, Build(g, t, a, b, c, a, a).1,
                     CellTruth(t, LitB(g, ins, a), LitB(g, ins, b), LitB(g, ins, c), false, false))
  {
    if t == GateAoi3 {
      var (g1, x) := AndGate(g, a, b);
      AndGateComputes(g, a, b, ins);
      ExtendKeepsLit(g1, g, ins, c);
      NorGateComputes(g1, x, c, ins);
      ExtendsTrans(NorGate(g1, x, c).0, g1, g);
    } else {
      var (g1, x) := OrGate(g, a, b);
      OrGateComputes(g, a, b, ins);
      ExtendKeepsLit(g1, g, ins, c);
      NandGateComputes(g1, x, c, ins);
      ExtendsTrans(NandGate(g1, x, c).0, g1, g);
    }
  }

  /** The two inner gates of AOI4/OAI4, built left to right. */
  lemma InnerPairComputes(g: Aig, and: bool, a: Lit, b: Lit, c: Lit, d: Lit, ins: seq<bool>)
    requires Acyclic(g) && InGraph(g, a) && InGraph(g, b) && InGraph(g, c) && InGraph(g, d) && |ins| == g.nbInputs
    ensures var (g1, x) := if and then AndGate(g, a, b) else OrGate(g, a, b);
            var (g2, y) := if and then AndGate(g1, c, d) else OrGate(g1, c, d);
            Acyclic(g2) && Extends(g2, g) && InGraph(g2, x) && InGraph(g2, y)
            && LitB(g2, ins, x) == (if and then LitB(g, ins, a) && LitB(g, ins, b) else LitB(g, ins, a) || LitB(g, ins, b))
            && LitB(g2, ins, y) == (if and then LitB(g, ins, c) && LitB(g, ins, d) else LitB(g, ins, c) || LitB(g, ins, d))
  {
    var (g1, x) := if and then AndGate(g, a, b) else OrGate(g, a, b);
    if and { AndGateComputes(g, a, b, ins); } else { OrGateComputes(g, a, b, ins); }
    ExtendKeepsLit(g1, g, ins, c);
    ExtendKeepsLit(g1, g, ins, d);
    var (g2, y) := if and then AndGate(g1, c, d) else OrGate(g1, c, d);
    if and { AndGateComputes(g1, c, d, ins); } else { OrGateComputes(g1, c, d, ins); }
    ExtendKeepsLit(g2, g1, ins, x);
    ExtendsTrans(g2, g1, g);
  }

  /** AOI4 = NOR(AND(a, b), AND(c, d)) and OAI4 = NAND(OR(a, b), OR(c, d)). */
  lemma Build4Computes(g: Aig, t: CellType, a: Lit, b: Lit, c: Lit, d: Lit, ins: seq<bool>)
    requires Acyclic(g) && InGraph(g, a) && InGraph(g, b) && InGraph(g, c) && InGraph(g, d) && |ins| == g.nbInputs
    requires t == GateAoi4 || t == GateOai4
    ensures Delivers(Build(g, t, a, b, c, d, a).0, g, ins, Build(g, t, a, b, c, d, a).1,
                     CellTruth(t, LitB(g, ins, a), LitB(g, ins, b), LitB(g, ins, c), LitB(g, ins, d), false))
  {
    var and := t == GateAoi4;
    InnerPairComputes(g, and, a, b, c, d, ins);
    var (g1, x) := if and then AndGate(g, a, b) else OrGate(g, a, b);
    var (g2, y) := if and then AndGate(g1, c, d) else OrGate(g1, c, d);
    if and {
      NorGateComputes(g2, x, y, ins);
      ExtendsTrans(NorGate(g2, x, y).0, g2, g);
    } else {
      NandGateComputes(g2, x, y, ins);
      ExtendsTrans(NandGate(g2, x, y).0, g2, g);
    }
  }

  /**
   * Every translated type builds a checked extension of the graph whose new
   * literal computes the cell's documented function of its inputs.
   */
  lemma BuildComputes(g: Aig, t: CellType, a: Lit, b: Lit, c: Lit, d: Lit, s: Lit, ins: seq<bool>)
    requires Acyclic(g) && |ins| == g.nbInputs && Supported(t)
    requires InGraph(g, a) && InGraph(g, b) && InGraph(g, c) && InGraph(g, d) && InGraph(g, s)
    ensures Delivers(Build(g, t, a, b, c, d, s).0, g, ins, Build(g, t, a, b, c, d, s).1,
                     CellTruth(t, LitB(g, ins, a), LitB(g, ins, b), LitB(g, ins, c), LitB(g, ins, d), LitB(g, ins, s)))
  {
    match t
    case CoarseMux | GateMux | GateNmux =>
      MuxBuildComputes(g, t, a, b, s, ins);
    case GateAoi3 | GateOai3 =>
      Build3Computes(g, t, a, b, c, ins);
    case GateAoi4 | GateOai4 =>
      Build4Computes(g, t, a, b, c, d, ins);
    case _ =>
      SimpleBuildComputes(g, t, a, b, ins);
  }

  /** Building never breaks the graph: a checked extension with the new literal in range. */
  lemma BuildExtends(g: Aig, t: CellType, a: Lit, b: Lit, c: Lit, d: Lit, s: Lit)
    requires Acyclic(g) && Supported(t)
    requires InGraph(g, a) && InGraph(g, b) && InGraph(g, c) && InGraph(g, d) && InGraph(g, s)
    ensures var (g2, y) := Build(g, t, a, b, c, d, s);
            Acyclic(g2) && Extends(g2, g) && InGraph(g2, y)
  {
    BuildComputes(g, t, a, b, c, d, s, seq(g.nbInputs, _ => false));
  }

  /** Recording a literal of an extension keeps every literal of the map in range. */
  lemma MapGrows(g: Aig, g2: Aig, m: map<SigBit, Lit>, key: SigBit, y: Lit)
    requires MapInGraph(g, m) && Extends(g2, g) && InGraph(g2, y)
    ensures MapInGraph(g2, m[key := y])
  {
  }

  /** The error cell_to_aig raises for an evaluable type it does not translate. */
  function UnsupportedMessage(cell: Cell): string
  {
    "Cell " + cell.name + " has type " + IdString(cell.cellType) + " which is not supported. Did you run synthesis before?"
  }

  /**
   * What cell_to_aig does to the graph, as a value: nothing (None) for a
   * cell the host cannot evaluate, whose Y already has a literal, or that
   * misses a needed input; an error for an unsupported type; otherwise the
   * grown graph and the literal of Y.
   */
  function Convert(g: Aig, wires: map<SigBit, Lit>, cell: Cell): (r: Result<Option<(Aig, Lit)>>)
  {
    if !cell.evaluable || cell.y in wires then Ok(None)
    else if !Supported(cell.cellType) then Err(UnsupportedMessage(cell))
    else if forall p | p in Needs(cell.cellType) :: HasValidPort(cell, p, wires) then
      Ok(Some(Build(g, cell.cellType, Sig(cell, A, wires), Sig(cell, B, wires), Sig(cell, C, wires),
                    Sig(cell, D, wires), Sig(cell, S, wires))))
    else Ok(None)
  }

  /** The value a port's literal takes. */
  function PortValue(g: Aig, wires: map<SigBit, Lit>, cell: Cell, p: PortId, ins: seq<bool>): bool
    requires Acyclic(g) && |ins| == g.nbInputs
    requires MapInGraph(g, wires)
  {
    if HasValidPort(cell, p, wires) then LitB(g, ins, wires[cell.ports[p][0]]) else false
  }

  /** Every literal of the map refers to a variable of the graph. */
  ghost predicate MapInGraph(g: Aig, wires: map<SigBit, Lit>)
  {
    forall w | w in wires :: InGraph(g, wires[w])
  }

  /**
   * When cell_to_aig translates a cell, Y's new literal computes the cell's
   * documented function of the values on its input ports, the graph stays
   * checked, and the existing literals keep their values.
   */
  lemma ConvertComputes(g: Aig, wires: map<SigBit, Lit>, cell: Cell, ins: seq<bool>)
    requires Acyclic(g) && |ins| == g.nbInputs && MapInGraph(g, wires)
    requires Convert(g, wires, cell).Ok? && Convert(g, wires, cell).value.Some?
    ensures var (g2, y) := Convert(g, wires, cell).value.value;
            Supported(cell.cellType) && cell.evaluable && cell.y !in wires
            && (forall p | p in Needs(cell.cellType) :: HasValidPort(cell, p, wires))
            && Delivers(g2, g, ins, y, CellTruth(cell.cellType, PortValue(g, wires, cell, A, ins), PortValue(g, wires, cell, B, ins),
                                                  PortValue(g, wires, cell, C, ins), PortValue(g, wires, cell, D, ins),
                                                  PortValue(g, wires, cell, S, ins)))
            && MapInGraph(g2, wires)
            && forall w | w in wires :: LitB(g2, ins, wires[w]) == LitB(g, ins, wires[w])
  {
    var t := cell.cellType;
    var (a, b, c, d, s) := (Sig(cell, A, wires), Sig(cell, B, wires), Sig(cell, C, wires), Sig(cell, D, wires), Sig(cell, S, wires));
    BuildComputes(g, t, a, b, c, d, s, ins);
    var g2 := Build(g, t, a, b, c, d, s).0;
    forall w | w in wires
      ensures InGraph(g2, wires[w]) && LitB(g2, ins, wires[w]) == LitB(g, ins, wires[w])
    {
      ExtendKeepsLit(g2, g, ins, wires[w]);
    }
  }

  /** The constant states have literals: S1 the constant one, the others the constant zero. */
  predicate ConstantsMapped(m: map<SigBit, Lit>)
  {
    S0 in m && S1 in m && Sx in m && Sz in m && Sa in m
    && m[S0] == Zero() && m[S1] == One() && m[Sx] == Zero() && m[Sz] == Zero() && m[Sa] == Zero()
  }

  /**
   * The part of the analyzer that cell_to_aig works on: the graph, the
   * literal of every converted signal, the signals converted since the last
   * sweep (dirty bits) and the cell driving each converted output.
   */
  class LogicLockingAnalyzer
  {
    const aig: MiniAIG
    var wireToAig: map<SigBit, Lit>
    var dirtyBits: set<SigBit>
    var wireToDriver: map<SigBit, string>

    /** The graph is checked and every literal of the map refers to one of its variables. */
    ghost predicate Valid()
      reads this, aig
    {
      aig.Valid() && Acyclic(aig.Graph()) && MapInGraph(aig.Graph(), wireToAig)
    }

    /**
     * The first steps of init_aig: an empty graph with one input per
     * combinational input, the constants mapped to zero and one (the
     * undefined states to zero), and each input bit mapped to its input
     * literal unless it already has one; every input bit is dirty.
     */
    constructor (inputs: seq<SigBit>)
      ensures Valid() && fresh(aig)
      ensures aig.Graph() == Aig(|inputs|, [], []) && wireToDriver == map[]
      ensures ConstantsMapped(wireToAig)
      ensures forall i :: 0 <= i < |inputs| ==> inputs[i] in wireToAig
      ensures forall i :: 0 <= i < |inputs| && inputs[i].WireBit? && inputs[i] !in inputs[..i] ==> wireToAig[inputs[i]] == GetInput(i)
      ensures dirtyBits == set b | b in inputs
    {
      aig := new MiniAIG(|inputs|);
      wireToDriver := map[];
      var m := map[S0 := Zero(), S1 := One(), Sx := Zero(), Sz := Zero(), Sa := Zero()];
      var dirty := {};
      for i := 0 to |inputs|
        invariant ConstantsMapped(m)
        invariant forall j :: 0 <= j < i ==> inputs[j] in m
        invariant forall j :: 0 <= j < i && inputs[j].WireBit? && inputs[j] !in inputs[..j] ==> m[inputs[j]] == GetInput(j)
        invariant forall w | w in m :: m[w].variable <= |inputs|
        invariant forall w | w in m && w.WireBit? :: w in inputs[..i]
        invariant dirty == set b | b in inputs[..i]
      {
        if inputs[i] !in m {
          m := m[inputs[i] := GetInput(i)];
        }
        dirty := dirty + {inputs[i]};
        assert inputs[..i + 1] == inputs[..i] + [inputs[i]];
      }
      assert inputs[..|inputs|] == inputs;
      wireToAig := m;
      dirtyBits := dirty;
    }

    /**
     * cell_to_aig: translate one cell when its type is evaluable, its Y
     * has no literal yet and every input it needs has one; the new literal
     * is recorded for Y, Y becomes dirty and the cell becomes its driver.
     * An evaluable type that is not translated is an error.
     */
    method CellToAig(cell: Cell) returns (r: Result<()>)
      requires Valid()
      modifies this, aig
      ensures Valid()
      ensures var c := Convert(old(aig.Graph()), old(wireToAig), cell);
              (r.Err? <==> c.Err?) && (r.Err? ==> r.msg == UnsupportedMessage(cell))
              && if c.Ok? && c.value.Some? then
                   aig.Graph() == c.value.value.0 && wireToAig == old(wireToAig)[cell.y := c.value.value.1]
                   && dirtyBits == old(dirtyBits) + {cell.y} && wireToDriver == old(wireToDriver)[cell.y := cell.name]
                 else
                   aig.Graph() == old(aig.Graph()) && wireToAig == old(wireToAig)
                   && dirtyBits == old(dirtyBits) && wireToDriver == old(wireToDriver)
    {
      r := Ok(());
      if !cell.evaluable {
        return;
      }
      var sigA, sigB, sigC, sigD, sigS := Sig(cell, A, wireToAig), Sig(cell, B, wireToAig), Sig(cell, C, wireToAig),
                                          Sig(cell, D, wireToAig), Sig(cell, S, wireToAig);
      if cell.y in wireToAig {
        return;
      }
      var t := cell.cellType;
      if t.Other? {
        return Err(UnsupportedMessage(cell));
      }
      ghost var g0 := aig.Graph();
      var needed := forall p | p in Needs(t) :: HasValidPort(cell, p, wireToAig);
      if !needed {
        return;
      }
      assert Convert(g0, wireToAig, cell) == Ok(Some(Build(g0, t, sigA, sigB, sigC, sigD, sigS)));
      var res := BuildGates(t, sigA, sigB, sigC, sigD, sigS);
      BuildExtends(g0, t, sigA, sigB, sigC, sigD, sigS);
      MapGrows(g0, aig.Graph(), wireToAig, cell.y, res);
      wireToAig := wireToAig[cell.y := res];
      dirtyBits := dirtyBits + {cell.y};
      wireToDriver := wireToDriver[cell.y := cell.name];
    }

    /** The gate-building calls of cell_to_aig's dispatch, on the object graph. */
    method BuildGates(t: CellType, a: Lit, b: Lit, c: Lit, d: Lit, s: Lit) returns (y: Lit)
      requires aig.Valid() && Supported(t)
      modifies aig
      ensures aig.Valid() && (aig.Graph(), y) == Build(old(aig.Graph()), t, a, b, c, d, s)
    {
      match t
      case CoarseNot | GateNot =>
        y := aig.AddBuffer(a.Inv());
      case CoarsePos | GateBuf =>
        y := aig.AddBuffer(a);
      case CoarseAnd | GateAnd =>
        y := aig.AddAnd(a, b);
      case GateNand =>
        y := aig.AddNand(a, b);
      case CoarseOr | GateOr =>
        y := aig.AddOr(a, b);
      case GateNor =>
        y := aig.AddNor(a, b);
      case CoarseXor | GateXor =>
        y := aig.AddXor(a, b);
      case CoarseXnor | GateXnor =>
        y := aig.AddXnor(a, b);
      case GateAndNot =>
        y := aig.AddAnd(a, b.Inv());
      case GateOrNot =>
        y := aig.AddOr(a, b.Inv());
      case CoarseMux | GateMux | GateNmux =>
        y := aig.AddMux(s, a, b);
        if t == GateNmux {
          y := y.Inv();
        }
      case GateAoi3 =>
        var x := aig.AddAnd(a, b);
        y := aig.AddNor(x, c);
      case GateOai3 =>
        var x := aig.AddOr(a, b);
        y := aig.AddNand(x, c);
      case GateAoi4 =>
        var x := aig.AddAnd(a, b);
        var z := aig.AddAnd(c, d);
        y := aig.AddNor(x, z);
      case GateOai4 =>
        var x := aig.AddOr(a, b);
        var z := aig.AddOr(c, d);
        y := aig.AddNand(x, z);
    }
  }

  /*
   * Corruption data. A corruption table has one row per output and one word
   * per test vector; the simulations are given per test vector, one word per
   * output.
   */

  /** flattenCorruptionData's specification: the rows, concatenated in order. */
  function Flatten(data: seq<seq<Word>>): seq<Word>
  {
    if data == [] then [] else Flatten(data[..|data| - 1]) + data[|data| - 1]
  }

  /** Word j of row i sits right after the words of the rows before i. */
  lemma {:induction false} FlattenAt(data: seq<seq<Word>>, i: nat, j: nat)
    requires i < |data| && j < |data[i]|
    ensures |Flatten(data[..i])| + j < |Flatten(data)|
    ensures Flatten(data)[|Flatten(data[..i])| + j] == data[i][j]
  {
    var last := |data| - 1;
    assert data[..last][..i] == data[..i] by {
      if i < last { assert data[..i] == data[..last][..i]; }
    }
    if i < last {
      FlattenAt(data[..last], i, j);
    } else {
      assert data[..last] == data[..i];
    }
  }

  /** flattenCorruptionData: every word of every row, row after row. */
  method FlattenCorruptionData(data: seq<seq<Word>>) returns (r: seq<Word>)
    ensures r == Flatten(data)
  {
    r := [];
    for i := 0 to |data|
      invariant r == Flatten(data[..i])
    {
      for j := 0 to |data[i]|
        invariant r == Flatten(data[..i]) + data[i][..j]
      {
        r := r + [data[i][j]];
        assert data[i][..j + 1] == data[i][..j] + [data[i][j]];
      }
      assert data[..i + 1][..i] == data[..i];
      assert data[i][..|data[i]|] == data[i];
    }
    assert data[..|data|] == data;
  }

  /** Some word of the row is nonzero. */
  predicate Corrupted(row: seq<Word>)
  {
    exists j :: 0 <= j < |row| && row[j] != 0
  }

  /** mergeCorruptionData: per row, all ones when some word is nonzero, else zero. */
  method MergeCorruptionData(data: seq<seq<Word>>) returns (r: seq<Word>)
    ensures |r| == |data|
    ensures forall i :: 0 <= i < |data| ==> r[i] == if Corrupted(data[i]) then AllOnes else 0
  {
    r := [];
    for i := 0 to |data|
      invariant |r| == i
      invariant forall k :: 0 <= k < i ==> r[k] == if Corrupted(data[k]) then AllOnes else 0
    {
      var corrupted := false;
      for j := 0 to |data[i]|
        invariant corrupted <==> exists k :: 0 <= k < j && data[i][k] != 0
      {
        corrupted := corrupted || data[i][j] != 0;
      }
      r := r + [if corrupted then AllOnes else 0];
    }
  }

  /** Every simulation has one word per output. */
  predicate Shaped(sims: seq<seq<Word>>, nbOutputs: nat)
  {
    forall tv :: 0 <= tv < |sims| ==> |sims[tv]| == nbOutputs
  }

  /** c is the corruption table of the toggled simulations against the untoggled ones. */
  ghost predicate IsCorruption(c: seq<seq<Word>>, noToggle: seq<seq<Word>>, toggle: seq<seq<Word>>)
    requires |toggle| == |noToggle|
    requires Shaped(toggle, |c|) && Shaped(noToggle, |c|)
  {
    forall o :: 0 <= o < |c| ==>
      |c[o]| == |noToggle| && forall tv :: 0 <= tv < |noToggle| ==> c[o][tv] == toggle[tv][o] ^ noToggle[tv][o]
  }

  /**
   * compute_output_corruption_data: entry [o][tv] is the toggled output word
   * xor the untoggled one, so its set bits are the lanes where toggling
   * changed output o on test vector tv.
   */
  method ComputeOutputCorruptionData(nbOutputs: nat, noToggle: seq<seq<Word>>, toggle: seq<seq<Word>>) returns (r: seq<seq<Word>>)
    requires |toggle| == |noToggle| && Shaped(toggle, nbOutputs) && Shaped(noToggle, nbOutputs)
    ensures |r| == nbOutputs && IsCorruption(r, noToggle, toggle)
  {
    r := seq(nbOutputs, _ => []);
    for tv := 0 to |noToggle|
      invariant |r| == nbOutputs
      invariant forall o :: 0 <= o < nbOutputs ==> r[o] == Column(noToggle, toggle, o, tv)
    {
      for o := 0 to |noToggle[tv]|
        invariant |r| == nbOutputs
        invariant forall q :: 0 <= q < nbOutputs ==> r[q] == Column(noToggle, toggle, q, if q < o then tv + 1 else tv)
      {
        r := r[o := r[o] + [toggle[tv][o] ^ noToggle[tv][o]]];
      }
    }
    forall o | 0 <= o < nbOutputs
      ensures |r[o]| == |noToggle| && forall tv :: 0 <= tv < |noToggle| ==> r[o][tv] == toggle[tv][o] ^ noToggle[tv][o]
    {
      ColumnEntries(noToggle, toggle, nbOutputs, o, |noToggle|);
    }
  }

  /** The corruption words of output o over the first n test vectors. */
  function Column(noToggle: seq<seq<Word>>, toggle: seq<seq<Word>>, o: nat, n: nat): seq<Word>
    requires n <= |noToggle| == |toggle|
    requires forall t :: 0 <= t < n ==> o < |noToggle[t]| && o < |toggle[t]|
  {
    if n == 0 then [] else Column(noToggle, toggle, o, n - 1) + [toggle[n - 1][o] ^ noToggle[n - 1][o]]
  }

  lemma {:induction false} ColumnEntries(noToggle: seq<seq<Word>>, toggle: seq<seq<Word>>, nbOutputs: nat, o: nat, n: nat)
    requires |toggle| == |noToggle| && Shaped(toggle, nbOutputs) && Shaped(noToggle, nbOutputs)
    requires o < nbOutputs && n <= |noToggle|
    ensures |Column(noToggle, toggle, o, n)| == n
    ensures forall t :: 0 <= t < n ==> Column(noToggle, toggle, o, n)[t] == toggle[t][o] ^ noToggle[t][o]
  {
    if n > 0 {
      ColumnEntries(noToggle, toggle, nbOutputs, o, n - 1);
    }
  }

  /**
   * Merging a corruption table flags exactly the outputs that toggling
   * changed on some lane of some test vector.
   */
  lemma {:induction false} MergedCorruptionFlagsChangedOutputs(c: seq<seq<Word>>, m: seq<Word>, noToggle: seq<seq<Word>>, toggle: seq<seq<Word>>, o: nat)
    requires |toggle| == |noToggle| && Shaped(toggle, |c|) && Shaped(noToggle, |c|)
    requires IsCorruption(c, noToggle, toggle)
    requires |m| == |c| && forall i :: 0 <= i < |c| ==> m[i] == if Corrupted(c[i]) then AllOnes else 0
    requires o < |c|
    ensures m[o] == AllOnes <==> exists tv :: 0 <= tv < |noToggle| && toggle[tv][o] != noToggle[tv][o]
    ensures m[o] != AllOnes ==> m[o] == 0
  {
    if m[o] == AllOnes {
      var tv :| 0 <= tv < |c[o]| && c[o][tv] != 0;
      assert toggle[tv][o] ^ noToggle[tv][o] != 0;
    } else {
      forall tv | 0 <= tv < |noToggle|
        ensures toggle[tv][o] == noToggle[tv][o]
      {
        assert c[o][tv] == 0;
        XorZeroMeansEqual(toggle[tv][o], noToggle[tv][o]);
      }
    }
  }

  lemma XorZeroMeansEqual(x: Word, y: Word)
    ensures x ^ y == 0 <==> x == y
  {
  }

  /*
   * Pairwise security (is_pairwise_secure, compute_pairwise_secure_graph).
   */

  /** The four simulations of one pair: one output vector per test vector each. */
  predicate SameShape(none: seq<seq<Word>>, ta: seq<seq<Word>>, tb: seq<seq<Word>>, both: seq<seq<Word>>)
  {
    |ta| == |none| && |tb| == |none| && |both| == |none|
    && forall tv :: 0 <= tv < |none| ==> |ta[tv]| == |none[tv]| && |tb[tv]| == |none[tv]| && |both[tv]| == |none[tv]|
  }

  /** Both sensitivities agree on every output of every test vector. */
  predicate SensitivitiesAgree(none: seq<seq<Word>>, ta: seq<seq<Word>>, tb: seq<seq<Word>>, both: seq<seq<Word>>)
    requires SameShape(none, ta, tb, both)
  {
    forall tv, o :: 0 <= tv < |none| && 0 <= o < |none[tv]| ==>
      SensitiveA(none[tv][o], ta[tv][o], tb[tv][o], both[tv][o]) == SensitiveB(none[tv][o], ta[tv][o], tb[tv][o], both[tv][o])
  }

  /** Toggling a and toggling b give the same outputs everywhere. */
  predicate SameImpact(ta: seq<seq<Word>>, tb: seq<seq<Word>>)
    requires |ta| == |tb| && forall tv :: 0 <= tv < |ta| ==> |ta[tv]| == |tb[tv]|
  {
    forall tv, o :: 0 <= tv < |ta| && 0 <= o < |ta[tv]| ==> ta[tv][o] == tb[tv][o]
  }

  /**
   * is_pairwise_secure on given simulations: false at the first output word
   * whose sensitivities differ; otherwise true, except that with
   * ignoreDuplicates a pair whose toggles have the same impact everywhere is
   * rejected.
   */
  method IsPairwiseSecure(none: seq<seq<Word>>, ta: seq<seq<Word>>, tb: seq<seq<Word>>, both: seq<seq<Word>>,
                          ignoreDuplicates: bool) returns (secure: bool)
    requires SameShape(none, ta, tb, both)
    ensures secure <==> SensitivitiesAgree(none, ta, tb, both) && (!ignoreDuplicates || !SameImpact(ta, tb))
  {
    var sameImpact := true;
    for tv := 0 to |none|
      invariant forall t, o :: 0 <= t < tv && 0 <= o < |none[t]| ==>
        SensitiveA(none[t][o], ta[t][o], tb[t][o], both[t][o]) == SensitiveB(none[t][o], ta[t][o], tb[t][o], both[t][o])
      invariant sameImpact <==> forall t, o :: 0 <= t < tv && 0 <= o < |ta[t]| ==> ta[t][o] == tb[t][o]
    {
      for o := 0 to |none[tv]|
        invariant forall q :: 0 <= q < o ==>
          SensitiveA(none[tv][q], ta[tv][q], tb[tv][q], both[tv][q]) == SensitiveB(none[tv][q], ta[tv][q], tb[tv][q], both[tv][q])
        invariant sameImpact <==> (forall t, q :: 0 <= t < tv && 0 <= q < |ta[t]| ==> ta[t][q] == tb[t][q])
                                  && forall q :: 0 <= q < o ==> ta[tv][q] == tb[tv][q]
      {
        var sensitiveA := SensitiveA(none[tv][o], ta[tv][o], tb[tv][o], both[tv][o]);
        var sensitiveB := SensitiveB(none[tv][o], ta[tv][o], tb[tv][o], both[tv][o]);
        if sensitiveA != sensitiveB {
          return false;
        }
        if ta[tv][o] != tb[tv][o] {
          sameImpact := false;
        }
      }
    }
    return !ignoreDuplicates || !sameImpact;
  }

  /** Pairs in lexicographic order. */
  predicate PairBefore(p: (nat, nat), q: (nat, nat))
  {
    p.0 < q.0 || (p.0 == q.0 && p.1 < q.1)
  }

  /**
   * compute_pairwise_secure_graph's enumeration: every pair i < j of the
   * lockable signals is tested once, in order, and kept when the test
   * accepts it; the test is a parameter (is_pairwise_secure on the pair's
   * simulations).
   */
  method PairwiseSecureGraph(nbSignals: nat, secure: (nat, nat) -> bool) returns (pairs: seq<(nat, nat)>)
    ensures forall p | p in pairs :: p.0 < p.1 < nbSignals && secure(p.0, p.1)
    ensures forall i, j :: 0 <= i < j < nbSignals && secure(i, j) ==> (i, j) in pairs
    ensures forall k, l :: 0 <= k < l < |pairs| ==> PairBefore(pairs[k], pairs[l])
  {
    pairs := [];
    for i := 0 to nbSignals
      invariant forall p | p in pairs :: p.0 < p.1 < nbSignals && secure(p.0, p.1) && p.0 < i
      invariant forall i', j :: 0 <= i' < i && i' < j < nbSignals && secure(i', j) ==> (i', j) in pairs
      invariant forall k, l :: 0 <= k < l < |pairs| ==> PairBefore(pairs[k], pairs[l])
    {
      for j := i + 1 to nbSignals
        invariant forall p | p in pairs :: p.0 < p.1 < nbSignals && secure(p.0, p.1) && (p.0 < i || (p.0 == i && p.1 < j))
        invariant forall i', j' :: 0 <= i' < i && i' < j' < nbSignals && secure(i', j') ==> (i', j') in pairs
        invariant forall j' :: i < j' < j && secure(i, j') ==> (i, j') in pairs
        invariant forall k, l :: 0 <= k < l < |pairs| ==> PairBefore(pairs[k], pairs[l])
      {
        if secure(i, j) {
          pairs := pairs + [(i, j)];
        }
      }
    }
  }
}
