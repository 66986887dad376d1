/**
 * Key-gate insertion of gate_insertion.cpp over a small netlist: cells with
 * named ports connected to wires, a count of allocated wires, the module's
 * input wires and the locking gates added so far. A locking gate takes over
 * the wire the locked cell used to drive; the cell now drives a fresh wire.
 */
module GateInsertion {
  import opened Common

  type Wire = nat
  type Port = string
  type CellName = string

  /** A cell: its port connections (each port once) and which of its ports are outputs. */
  datatype CellInfo = CellInfo(conns: seq<(Port, Wire)>, outputs: set<Port>)

  /** A gate added by the insertion: $xor/$xnor (a, b, y) and $mux (a, b, s, y). */
  datatype Gate =
    | XorGate(a: Wire, b: Wire, y: Wire)
    | XnorGate(a: Wire, b: Wire, y: Wire)
    | MuxGate(a: Wire, b: Wire, s: Wire, y: Wire)

  /** The value a gate drives onto its output, given the values of the wires. */
  function GateOut(g: Gate, val: Wire -> bool): bool
  {
    match g
    case XorGate(a, b, _) => val(a) != val(b)
    case XnorGate(a, b, _) => val(a) == val(b)
    case MuxGate(a, b, s, _) => if val(s) then val(b) else val(a)
  }

  /** cell->output(port) */
  predicate IsOutput(c: CellInfo, p: Port)
  {
    p in c.outputs
  }

  ghost predicate DistinctPorts(c: CellInfo)
  {
    forall i, j :: 0 <= i < j < |c.conns| ==> c.conns[i].0 != c.conns[j].0
  }

  /** cell->getPort(port): the wire on a connected port. */
  function GetPort(c: CellInfo, p: Port): (w: Option<Wire>)
    ensures w.Some? ==> |c.conns| > 0
    decreases |c.conns|
  {
    if c.conns == [] then None
    else if c.conns[0].0 == p then Some(c.conns[0].1)
    else GetPort(CellInfo(c.conns[1..], c.outputs), p)
  }

  /** getPort finds a wire exactly when the port is connected, and that wire is the port's connection. */
  lemma {:induction false} GetPortFinds(c: CellInfo, p: Port)
    ensures GetPort(c, p).Some? <==> exists i :: 0 <= i < |c.conns| && c.conns[i].0 == p
    ensures GetPort(c, p).Some? ==> exists i :: 0 <= i < |c.conns| && c.conns[i] == (p, GetPort(c, p).value)
    decreases |c.conns|
  {
    if c.conns != [] && c.conns[0].0 != p {
      var t := CellInfo(c.conns[1..], c.outputs);
      GetPortFinds(t, p);
      assert forall i :: 1 <= i < |c.conns| ==> t.conns[i - 1] == c.conns[i];
      if GetPort(c, p).Some? {
        var i :| 0 <= i < |t.conns| && t.conns[i] == (p, GetPort(c, p).value);
        assert c.conns[i + 1] == (p, GetPort(c, p).value);
      }
    }
  }

  /** unsetPort(port) then setPort(port, w): the port now carries w; other connections are kept. */
  function SetPort(c: CellInfo, p: Port, w: Wire): (c': CellInfo)
    ensures c'.outputs == c.outputs && |c'.conns| == |c.conns|
    decreases |c.conns|
  {
    if c.conns == [] then c
    else
      var head := if c.conns[0].0 == p then (p, w) else c.conns[0];
      CellInfo([head] + SetPort(CellInfo(c.conns[1..], c.outputs), p, w).conns, c.outputs)
  }

  /** Connection by connection, setPort rewires the named port and leaves every other one alone. */
  lemma {:induction false} SetPortConns(c: CellInfo, p: Port, w: Wire)
    ensures forall i :: 0 <= i < |c.conns| ==>
      SetPort(c, p, w).conns[i] == (if c.conns[i].0 == p then (p, w) else c.conns[i])
    decreases |c.conns|
  {
    if c.conns != [] {
      var t := CellInfo(c.conns[1..], c.outputs);
      SetPortConns(t, p, w);
      assert forall i :: 1 <= i < |c.conns| ==> t.conns[i - 1] == c.conns[i];
    }
  }

  /** get_output_portname: the first connected port that is an output, an error when there is none. */
  function OutputPortName(c: CellInfo): (r: Result<Port>)
    ensures r.Ok? ==> IsOutput(c, r.value) && GetPort(c, r.value).Some?
    ensures r.Err? ==> r.msg == NoOutputPortMessage
    decreases |c.conns|
  {
    if c.conns == [] then Err(NoOutputPortMessage)
    else if IsOutput(c, c.conns[0].0) then Ok(c.conns[0].0)
    else OutputPortName(CellInfo(c.conns[1..], c.outputs))
  }

  /** get_output_portname fails exactly when no connected port is an output. */
  lemma {:induction false} OutputPortNameFails(c: CellInfo)
    ensures OutputPortName(c).Err? <==> forall i :: 0 <= i < |c.conns| ==> !IsOutput(c, c.conns[i].0)
    decreases |c.conns|
  {
    if c.conns != [] && !IsOutput(c, c.conns[0].0) {
      var t := CellInfo(c.conns[1..], c.outputs);
      OutputPortNameFails(t);
      assert forall i :: 1 <= i < |c.conns| ==> t.conns[i - 1] == c.conns[i];
    }
  }

  const NoOutputPortMessage := "No output port found on the cell"
  const CountMessage := "Number of cells and values for logic locking should be the same"

  /** The log_error message for a cell name missing from the module. */
  function NotFoundMessage(name: CellName): string
  {
    "Cell " + name + " not found in module\n"
  }

  /*
   * What a key gate computes.
   */

  /** The gate insert_xor_locking_gate adds: XNOR when the valid key bit is 1, XOR when it is 0. */
  function XorLock(locked: Wire, key: Wire, out: Wire, keyValue: bool): Gate
  {
    if keyValue then XnorGate(locked, key, out) else XorGate(locked, key, out)
  }

  /** The XOR/XNOR key gate passes the locked signal through iff the key bit is the valid one, and inverts it otherwise. */
  lemma XorLockTransparent(locked: Wire, key: Wire, out: Wire, keyValue: bool, val: Wire -> bool)
    ensures (GateOut(XorLock(locked, key, out, keyValue), val) == val(locked)) <==> val(key) == keyValue
    ensures val(key) != keyValue ==> GateOut(XorLock(locked, key, out, keyValue), val) == !val(locked)
  {}

  /** The gate insert_mux_locking_gate adds: the valid key value selects the locked signal. */
  function MuxLock(locked: Wire, mix: Wire, key: Wire, out: Wire, keyValue: bool): Gate
  {
    if keyValue then MuxGate(mix, locked, key, out) else MuxGate(locked, mix, key, out)
  }

  /** The MUX key gate gives the locked signal under the valid key bit and the mixed signal otherwise. */
  lemma MuxLockSelects(locked: Wire, mix: Wire, key: Wire, out: Wire, keyValue: bool, val: Wire -> bool)
    ensures val(key) == keyValue ==> GateOut(MuxLock(locked, mix, key, out, keyValue), val) == val(locked)
    ensures val(key) != keyValue ==> GateOut(MuxLock(locked, mix, key, out, keyValue), val) == val(mix)
  {}

  /*
   * The assertions of insert_mux_locking_gate.
   */

  /** Lines 58-59 as written: the second check asks cell 1, not cell 2, about port 2. */
  predicate MuxAssertsAsWritten(c1: CellInfo, p1: Port, c2: CellInfo, p2: Port)
  {
    IsOutput(c1, p1) && IsOutput(c1, p2)
  }

  /** The checks as intended: each port is an output of its own cell. */
  predicate MuxAsserts(c1: CellInfo, p1: Port, c2: CellInfo, p2: Port)
  {
    IsOutput(c1, p1) && IsOutput(c2, p2)
  }

  /**
   * An AND cell with output Y mixed with a flip-flop with output Q: mix_gates
   * passes the two output ports, the intended checks hold, and the check as
   * written aborts because the AND cell has no port Q.
   */
  lemma MuxAssertRejectsValidPair()
    ensures var c1, c2 := CellInfo([("\\Y", 0)], {"\\Y"}), CellInfo([("\\Q", 1)], {"\\Q"});
      && OutputPortName(c1) == Ok("\\Y") && OutputPortName(c2) == Ok("\\Q")
      && MuxAsserts(c1, "\\Y", c2, "\\Q") && !MuxAssertsAsWritten(c1, "\\Y", c2, "\\Q")
  {
    assert "\\Q" != "\\Y" by {
      assert "\\Q"[1] != "\\Y"[1];
    }
  }

  /** The ports mix_gates picks always pass the intended checks. */
  lemma MixPortsPassChecks(c1: CellInfo, c2: CellInfo)
    requires OutputPortName(c1).Ok? && OutputPortName(c2).Ok?
    ensures MuxAsserts(c1, OutputPortName(c1).value, c2, OutputPortName(c2).value)
  {}

  /*
   * The module being edited.
   */

  class Module {
    var cells: map<CellName, CellInfo>
    /** Wires 0 .. nbWires - 1 exist. */
    var nbWires: nat
    /** The input ports, in the order they were added. */
    var inputs: seq<Wire>
    /** The locking gates added, in order. */
    var gates: seq<Gate>

    /** Every connection and input uses an existing wire, and no cell repeats a port. */
    ghost predicate Valid()
      reads this
    {
      ModuleValid(cells, nbWires, inputs)
    }

    constructor(cells: map<CellName, CellInfo>, nbWires: nat, inputs: seq<Wire>)
      ensures this.cells == cells && this.nbWires == nbWires && this.inputs == inputs && gates == []
    {
      this.cells, this.nbWires, this.inputs, gates := cells, nbWires, inputs, [];
    }

    /** module->addWire: a fresh wire. */
    method AddWire() returns (w: Wire)
      modifies this
      ensures w == old(nbWires) && nbWires == w + 1
      ensures cells == old(cells) && inputs == old(inputs) && gates == old(gates)
    {
      w := nbWires;
      nbWires := nbWires + 1;
    }

    /** add_key_input: a fresh wire made an input port. */
    method AddKeyInput() returns (w: Wire)
      modifies this
      ensures old(Valid()) ==> Valid()
      ensures w == old(nbWires) && nbWires == w + 1
      ensures inputs == old(inputs) + [w]
      ensures cells == old(cells) && gates == old(gates)
    {
      w := AddWire();
      inputs := inputs + [w];
      if old(Valid()) {
        GrowKeepsValid(cells, w);
      }
    }
  }

  /** A valid module: valid cells, and every module input is an allocated wire. */
  ghost predicate ModuleValid(cells: map<CellName, CellInfo>, nbWires: nat, inputs: seq<Wire>)
  {
    CellsValid(cells, nbWires) && forall i :: 0 <= i < |inputs| ==> inputs[i] < nbWires
  }

  /** No cell repeats a port, and every connection uses one of the first nbWires wires. */
  ghost predicate CellsValid(cells: map<CellName, CellInfo>, nbWires: nat)
  {
    && (forall n :: n in cells ==> DistinctPorts(cells[n]))
    && (forall n, i :: n in cells && 0 <= i < |cells[n].conns| ==> cells[n].conns[i].1 < nbWires)
  }

  /** Rewiring one port to an existing wire keeps the cells valid. */
  lemma RewireKeepsValid(cells: map<CellName, CellInfo>, nbWires: nat, name: CellName, p: Port, w: Wire)
    requires name in cells && w < nbWires && CellsValid(cells, nbWires)
    ensures CellsValid(cells[name := SetPort(cells[name], p, w)], nbWires)
  {
    var c := SetPort(cells[name], p, w);
    SetPortConns(cells[name], p, w);
    assert DistinctPorts(c) by {
      forall i, j | 0 <= i < j < |c.conns|
        ensures c.conns[i].0 != c.conns[j].0
      {
        assert c.conns[i].0 == cells[name].conns[i].0 && c.conns[j].0 == cells[name].conns[j].0;
      }
    }
  }

  /** A fresh wire keeps the cells valid. */
  lemma GrowKeepsValid(cells: map<CellName, CellInfo>, nbWires: nat)
    requires CellsValid(cells, nbWires)
    ensures CellsValid(cells, nbWires + 1)
  {}

  /**
   * insert_xor_locking_gate: the cell's port moves to a fresh wire, and a
   * XOR (or XNOR) of that wire and the key drives the port's former wire.
   */
  method InsertXorLockingGate(m: Module, name: CellName, p: Port, key: Wire, keyValue: bool) returns (g: Gate)
    requires m.Valid() && name in m.cells && IsOutput(m.cells[name], p) && GetPort(m.cells[name], p).Some?
    modifies m
    ensures m.Valid()
    ensures g == XorLock(old(m.nbWires), key, GetPort(old(m.cells[name]), p).value, keyValue)
    ensures m.nbWires == old(m.nbWires) + 1 && m.inputs == old(m.inputs) && m.gates == old(m.gates) + [g]
    ensures m.cells == old(m.cells)[name := SetPort(old(m.cells[name]), p, old(m.nbWires))]
  {
    var out := GetPort(m.cells[name], p).value;
    var locked := m.AddWire();
    RewireKeepsValid(m.cells, m.nbWires, name, p, locked);
    m.cells := m.cells[name := SetPort(m.cells[name], p, locked)];
    g := XorLock(locked, key, out, keyValue);
    m.gates := m.gates + [g];
  }

  /**
   * insert_mux_locking_gate with its intended checks: cell 1's port moves to
   * a fresh wire, and a MUX between that wire and cell 2's output, selected
   * by the key, drives the port's former wire.
   */
  method InsertMuxLockingGate(m: Module, name1: CellName, p1: Port, name2: CellName, p2: Port, key: Wire, keyValue: bool)
    returns (g: Gate)
    requires m.Valid() && name1 in m.cells && name2 in m.cells
    requires MuxAsserts(m.cells[name1], p1, m.cells[name2], p2)
    requires GetPort(m.cells[name1], p1).Some? && GetPort(m.cells[name2], p2).Some?
    modifies m
    ensures m.Valid()
    ensures g == MuxLock(old(m.nbWires), GetPort(old(m.cells[name2]), p2).value, key, GetPort(old(m.cells[name1]), p1).value, keyValue)
    ensures m.nbWires == old(m.nbWires) + 1 && m.inputs == old(m.inputs) && m.gates == old(m.gates) + [g]
    ensures m.cells == old(m.cells)[name1 := SetPort(old(m.cells[name1]), p1, old(m.nbWires))]
  {
    var out := GetPort(m.cells[name1], p1).value;
    var mix := GetPort(m.cells[name2], p2).value;
    var locked := m.AddWire();
    RewireKeepsValid(m.cells, m.nbWires, name1, p1, locked);
    m.cells := m.cells[name1 := SetPort(m.cells[name1], p1, locked)];
    g := MuxLock(locked, mix, key, out, keyValue);
    m.gates := m.gates + [g];
  }

  /*
   * Locking and mixing lists of cells.
   */

  /** The port names of a cell, in connection order. */
  function Ports(c: CellInfo): (ps: seq<Port>)
    ensures |ps| == |c.conns|
    decreases |c.conns|
  {
    if c.conns == [] then [] else [c.conns[0].0] + Ports(CellInfo(c.conns[1..], c.outputs))
  }

  /** The output port chosen depends only on the port names and which are outputs. */
  lemma {:induction false} OutputPortNameByPorts(c: CellInfo, d: CellInfo)
    requires Ports(c) == Ports(d) && c.outputs == d.outputs
    ensures OutputPortName(c) == OutputPortName(d)
    decreases |c.conns|
  {
    if c.conns != [] {
      var c', d' := CellInfo(c.conns[1..], c.outputs), CellInfo(d.conns[1..], d.outputs);
      assert Ports(c') == Ports(c)[1..] == Ports(d)[1..] == Ports(d');
      OutputPortNameByPorts(c', d');
    }
  }

  /** Rewiring keeps a cell's port names and outputs. */
  lemma {:induction false} SetPortKeepsPorts(c: CellInfo, p: Port, w: Wire)
    ensures Ports(SetPort(c, p, w)) == Ports(c) && SetPort(c, p, w).outputs == c.outputs
    decreases |c.conns|
  {
    if c.conns != [] {
      var t := CellInfo(c.conns[1..], c.outputs);
      SetPortKeepsPorts(t, p, w);
      var c' := SetPort(c, p, w);
      assert CellInfo(c'.conns[1..], c'.outputs) == SetPort(t, p, w);
    }
  }

  /** The same cells as before, with the same port names and outputs: only wires have moved. */
  ghost predicate SameShape(cells: map<CellName, CellInfo>, before: map<CellName, CellInfo>)
  {
    cells.Keys == before.Keys
    && forall n :: n in before ==> Ports(cells[n]) == Ports(before[n]) && cells[n].outputs == before[n].outputs
  }

  /**
   * The key gate on key wire `key`: its locked input is the wire created
   * right after the key. A XOR/XNOR gate is an XNOR exactly when the valid
   * key bit is 1; a MUX is selected by the key and picks the locked input
   * under the valid key bit.
   */
  ghost predicate KeyedGate(g: Gate, key: Wire, keyValue: bool, mux: bool)
  {
    if mux then g.MuxGate? && g.s == key && (if keyValue then g.b else g.a) == key + 1
    else (g.XorGate? || g.XnorGate?) && g.a == key + 1 && g.b == key && (g.XnorGate? <==> keyValue)
  }

  /** Entry k of `added` is the key gate of cell (or pair) k, on keys[k] with valid value keyValues[k]. */
  ghost predicate KeyedGates(added: seq<Gate>, keys: seq<Wire>, keyValues: seq<bool>, mux: bool)
  {
    |added| == |keys| <= |keyValues|
    && forall k :: 0 <= k < |added| ==> KeyedGate(added[k], keys[k], keyValues[k], mux)
  }

  /** KeyedGates on the gates after the first `base`, stated by position. */
  ghost predicate KeyedFrom(gates: seq<Gate>, base: nat, keys: seq<Wire>, keyValues: seq<bool>, mux: bool)
  {
    |gates| == base + |keys| && |keys| <= |keyValues|
    && forall k :: 0 <= k < |keys| ==> KeyedGate(gates[base + k], keys[k], keyValues[k], mux)
  }

  /** Fresh, distinct wires: each one created after the module's first `from` wires. */
  ghost predicate FreshKeys(keys: seq<Wire>, from: nat)
  {
    (forall k :: 0 <= k < |keys| ==> keys[k] >= from)
    && forall j, k :: 0 <= j < k < |keys| ==> keys[j] < keys[k]
  }

  /** The loop invariant of lock_gates (mux false) or mix_gates (mux true) after |keys| steps, on the module's fields. */
  ghost predicate LockingState(cells: map<CellName, CellInfo>, nbWires: nat, inputs: seq<Wire>, gates: seq<Gate>,
                               cells0: map<CellName, CellInfo>, gates0: seq<Gate>, inputs0: seq<Wire>, w0: nat,
                               keys: seq<Wire>, keyValues: seq<bool>, mux: bool)
  {
    ModuleValid(cells, nbWires, inputs)
    && SameShape(cells, cells0) && nbWires >= w0
    && FreshKeys(keys, w0) && (forall k :: 0 <= k < |keys| ==> keys[k] < nbWires)
    && inputs == inputs0 + keys
    && gates0 <= gates && KeyedFrom(gates, |gates0|, keys, keyValues, mux)
  }

  /** A loop state keeps the cells' shape and the gates that were there before the loop. */
  lemma StateShape(cells: map<CellName, CellInfo>, nbWires: nat, inputs: seq<Wire>, gates: seq<Gate>,
                   cells0: map<CellName, CellInfo>, gates0: seq<Gate>, inputs0: seq<Wire>, w0: nat,
                   keys: seq<Wire>, keyValues: seq<bool>, mux: bool)
    requires LockingState(cells, nbWires, inputs, gates, cells0, gates0, inputs0, w0, keys, keyValues, mux)
    ensures SameShape(cells, cells0) && gates0 <= gates
  {
  }

  ghost predicate Locking(m: Module, cells0: map<CellName, CellInfo>, gates0: seq<Gate>, inputs0: seq<Wire>, w0: nat,
                          keys: seq<Wire>, keyValues: seq<bool>, mux: bool)
    reads m
  {
    LockingState(m.cells, m.nbWires, m.inputs, m.gates, cells0, gates0, inputs0, w0, keys, keyValues, mux)
  }

  /** Before the first step: nothing locked yet. */
  lemma LockingStart(cells: map<CellName, CellInfo>, nbWires: nat, inputs: seq<Wire>, gates: seq<Gate>,
                     keyValues: seq<bool>, mux: bool)
    requires CellsValid(cells, nbWires) && forall i :: 0 <= i < |inputs| ==> inputs[i] < nbWires
    ensures LockingState(cells, nbWires, inputs, gates, cells, gates, inputs, nbWires, [], keyValues, mux)
  {
    assert gates[|gates|..] == [];
    assert inputs + [] == inputs;
  }

  /** A key input, then one cell rewired to a second fresh wire: the cells and inputs stay valid. */
  lemma ValidStep(cells: map<CellName, CellInfo>, cells': map<CellName, CellInfo>, nbWires: nat, nbWires': nat,
                  inputs: seq<Wire>, inputs': seq<Wire>, name: CellName, p: Port)
    requires CellsValid(cells, nbWires) && forall i :: 0 <= i < |inputs| ==> inputs[i] < nbWires
    requires name in cells && cells' == cells[name := SetPort(cells[name], p, nbWires + 1)] && nbWires' == nbWires + 2
    requires inputs' == inputs + [nbWires]
    ensures CellsValid(cells', nbWires') && forall i :: 0 <= i < |inputs'| ==> inputs'[i] < nbWires'
  {
    GrowKeepsValid(cells, nbWires);
    GrowKeepsValid(cells, nbWires + 1);
    RewireKeepsValid(cells, nbWires + 2, name, p, nbWires + 1);
  }

  /** Rewiring one cell keeps the shape of the cells. */
  lemma ShapeStep(cells: map<CellName, CellInfo>, cells': map<CellName, CellInfo>, cells0: map<CellName, CellInfo>,
                  name: CellName, p: Port, w: Wire)
    requires SameShape(cells, cells0) && name in cells && cells' == cells[name := SetPort(cells[name], p, w)]
    ensures SameShape(cells', cells0)
  {
    SetPortKeepsPorts(cells[name], p, w);
  }

  /** A key wire numbered nbWires, then one more wire: the keys stay fresh, increasing and allocated. */
  lemma KeysStep(keys: seq<Wire>, keys': seq<Wire>, w0: nat, nbWires: nat, nbWires': nat)
    requires FreshKeys(keys, w0) && nbWires >= w0 && forall k :: 0 <= k < |keys| ==> keys[k] < nbWires
    requires keys' == keys + [nbWires] && nbWires' == nbWires + 2
    ensures FreshKeys(keys', w0) && forall k :: 0 <= k < |keys'| ==> keys'[k] < nbWires'
  {}

  /** One more key gate, keyed by the new key wire, extends the gate list as KeyedGates describes. */
  lemma GatesStep(gates: seq<Gate>, gates': seq<Gate>, gates0: seq<Gate>, keys: seq<Wire>, keys': seq<Wire>,
                  keyValues: seq<bool>, g: Gate, key: Wire, mux: bool)
    requires gates0 <= gates && KeyedFrom(gates, |gates0|, keys, keyValues, mux)
    requires |keys| < |keyValues| && KeyedGate(g, key, keyValues[|keys|], mux)
    requires gates' == gates + [g] && keys' == keys + [key]
    ensures gates0 <= gates' && KeyedFrom(gates', |gates0|, keys', keyValues, mux)
  {
    assert gates'[|gates0| + |keys|] == g;
  }

  /** The XOR/XNOR gate LockOne adds on key wire `key` is the key gate of that key. */
  lemma XorLockKeyed(key: Wire, out: Wire, keyValue: bool)
    ensures KeyedGate(XorLock(key + 1, key, out, keyValue), key, keyValue, false)
  {}

  /** The MUX gate MixOne adds on key wire `key` is the key gate of that key. */
  lemma MuxLockKeyed(key: Wire, mix: Wire, out: Wire, keyValue: bool)
    ensures KeyedGate(MuxLock(key + 1, mix, key, out, keyValue), key, keyValue, true)
  {}

  /** One more locked cell: a key wire, then the wire the cell now drives, then its key gate g. */
  lemma LockingStep(cells: map<CellName, CellInfo>, nbWires: nat, inputs: seq<Wire>, gates: seq<Gate>,
                    cells0: map<CellName, CellInfo>, gates0: seq<Gate>, inputs0: seq<Wire>, w0: nat,
                    keys: seq<Wire>, keyValues: seq<bool>, mux: bool, name: CellName, p: Port, g: Gate,
                    cells': map<CellName, CellInfo>, nbWires': nat, inputs': seq<Wire>, gates': seq<Gate>, keys': seq<Wire>)
    requires LockingState(cells, nbWires, inputs, gates, cells0, gates0, inputs0, w0, keys, keyValues, mux)
    requires name in cells && |keys| < |keyValues| && KeyedGate(g, nbWires, keyValues[|keys|], mux)
    requires cells' == cells[name := SetPort(cells[name], p, nbWires + 1)] && nbWires' == nbWires + 2
    requires inputs' == inputs + [nbWires] && gates' == gates + [g] && keys' == keys + [nbWires]
    ensures LockingState(cells', nbWires', inputs', gates', cells0, gates0, inputs0, w0, keys', keyValues, mux)
  {
    ValidStep(cells, cells', nbWires, nbWires', inputs, inputs', name, p);
    ShapeStep(cells, cells', cells0, name, p, nbWires + 1);
    KeysStep(keys, keys', w0, nbWires, nbWires');
    GatesStep(gates, gates', gates0, keys, keys', keyValues, g, nbWires, mux);
  }

  /*
   * The rewiring the loops perform, step by step.
   */

  /** The wire cell n's output port drives (0 when the cell or the port is missing). */
  function OutWire(cells: map<CellName, CellInfo>, n: CellName): Wire
  {
    if n in cells && OutputPortName(cells[n]).Ok? then GetPort(cells[n], OutputPortName(cells[n]).value).value else 0
  }

  /** cells[n] with its output port moved to wire w (unchanged when the cell or the port is missing). */
  function Rewire(cells: map<CellName, CellInfo>, n: CellName, w: Wire): (r: map<CellName, CellInfo>)
    ensures r.Keys == cells.Keys
  {
    if n in cells && OutputPortName(cells[n]).Ok? then cells[n := SetPort(cells[n], OutputPortName(cells[n]).value, w)]
    else cells
  }

  /**
   * The cells after the first k steps of lock_gates (or, given the first
   * cells of the pairs, of mix_gates) from a module with w0 wires: step t
   * creates key wire w0 + 2t and moves the output of cell names[t] to wire
   * w0 + 2t + 1.
   */
  function LockedCells(cells: map<CellName, CellInfo>, names: seq<CellName>, w0: nat, k: nat): (r: map<CellName, CellInfo>)
    requires k <= |names|
    ensures r.Keys == cells.Keys
  {
    if k == 0 then cells
    else Rewire(LockedCells(cells, names, w0, k - 1), names[k - 1], w0 + 2 * (k - 1) + 1)
  }

  /** The XOR/XNOR gates of the first k steps of lock_gates: gate t drives the wire cell names[t] drove before step t. */
  function LockedGates(cells: map<CellName, CellInfo>, names: seq<CellName>, w0: nat, keyValues: seq<bool>, k: nat): (gs: seq<Gate>)
    requires k <= |names| && k <= |keyValues|
    ensures |gs| == k
  {
    if k == 0 then []
    else
      var key := w0 + 2 * (k - 1);
      LockedGates(cells, names, w0, keyValues, k - 1)
      + [XorLock(key + 1, key, OutWire(LockedCells(cells, names, w0, k - 1), names[k - 1]), keyValues[k - 1])]
  }

  /** The first cell of each pair. */
  function Firsts(pairs: seq<(CellName, CellName)>): (names: seq<CellName>)
    ensures |names| == |pairs| && forall t :: 0 <= t < |pairs| ==> names[t] == pairs[t].0
  {
    seq(|pairs|, t requires 0 <= t < |pairs| => pairs[t].0)
  }

  /**
   * The MUX gates of the first k steps of mix_gates: gate t drives the wire
   * the first cell of pair t drove before step t, and mixes in the wire the
   * second cell drove at that point.
   */
  function MixedGates(cells: map<CellName, CellInfo>, pairs: seq<(CellName, CellName)>, w0: nat, keyValues: seq<bool>, k: nat)
    : (gs: seq<Gate>)
    requires k <= |pairs| && k <= |keyValues|
    ensures |gs| == k
  {
    if k == 0 then []
    else
      var key := w0 + 2 * (k - 1);
      var prev := LockedCells(cells, Firsts(pairs), w0, k - 1);
      MixedGates(cells, pairs, w0, keyValues, k - 1)
      + [MuxLock(key + 1, OutWire(prev, pairs[k - 1].1), key, OutWire(prev, pairs[k - 1].0), keyValues[k - 1])]
  }

  /** setPort then getPort on a connected port gives the new wire. */
  lemma {:induction false} GetSetPort(c: CellInfo, p: Port, w: Wire)
    requires GetPort(c, p).Some?
    ensures GetPort(SetPort(c, p, w), p) == Some(w)
    decreases |c.conns|
  {
    if c.conns[0].0 != p {
      var t := CellInfo(c.conns[1..], c.outputs);
      GetSetPort(t, p, w);
      var c' := SetPort(c, p, w);
      assert CellInfo(c'.conns[1..], c'.outputs) == SetPort(t, p, w);
    }
  }

  /** A cell not among the first k names is untouched by the first k steps. */
  lemma {:induction false} LockedCellsElsewhere(cells: map<CellName, CellInfo>, names: seq<CellName>, w0: nat, k: nat, n: CellName)
    requires k <= |names| && n !in names[..k]
    ensures n in cells ==> LockedCells(cells, names, w0, k)[n] == cells[n]
  {
    if k > 0 {
      assert names[..k - 1] == names[..k][..k - 1];
      LockedCellsElsewhere(cells, names, w0, k - 1, n);
    }
  }

  /**
   * With distinct names each of which has an output port, after k steps
   * cell names[j] (j < k) drives the locked input w0 + 2j + 1 of its gate
   * from that port, and gate j is the XOR/XNOR of that wire and key
   * w0 + 2j that drives the wire the cell drove at the start.
   */
  lemma LockedTie(cells: map<CellName, CellInfo>, names: seq<CellName>, w0: nat, keyValues: seq<bool>, k: nat, j: nat)
    requires k <= |names| && k <= |keyValues| && j < k
    requires forall a, b :: 0 <= a < b < |names| ==> names[a] != names[b]
    requires names[j] in cells && OutputPortName(cells[names[j]]).Ok?
    ensures GetPort(LockedCells(cells, names, w0, k)[names[j]], OutputPortName(cells[names[j]]).value) == Some(w0 + 2 * j + 1)
    ensures LockedGates(cells, names, w0, keyValues, k)[j]
         == XorLock(w0 + 2 * j + 1, w0 + 2 * j, OutWire(cells, names[j]), keyValues[j])
  {
    var n := names[j];
    LockedCellsElsewhere(cells, names, w0, j, n);
    var c := cells[n];
    var p := OutputPortName(c).value;
    GetSetPort(c, p, w0 + 2 * j + 1);
    LockedCellsAfter(cells, names, w0, k, j);
    LockedGatesPrefix(cells, names, w0, keyValues, k, j + 1);
  }

  /** Steps after step j leave cell names[j] alone when the names are distinct. */
  lemma {:induction false} LockedCellsAfter(cells: map<CellName, CellInfo>, names: seq<CellName>, w0: nat, k: nat, j: nat)
    requires j < k <= |names|
    requires forall a, b :: 0 <= a < b < |names| ==> names[a] != names[b]
    ensures names[j] in cells ==>
      LockedCells(cells, names, w0, k)[names[j]] == LockedCells(cells, names, w0, j + 1)[names[j]]
  {
    if k > j + 1 {
      LockedCellsAfter(cells, names, w0, k - 1, j);
    }
  }

  /** The first j gates do not change in later steps. */
  lemma {:induction false} LockedGatesPrefix(cells: map<CellName, CellInfo>, names: seq<CellName>, w0: nat, keyValues: seq<bool>,
                                             k: nat, j: nat)
    requires j <= k <= |names| && k <= |keyValues|
    ensures LockedGates(cells, names, w0, keyValues, k)[..j] == LockedGates(cells, names, w0, keyValues, j)
  {
    if k > j {
      LockedGatesPrefix(cells, names, w0, keyValues, k - 1, j);
    }
  }

  /**
   * For pairs with distinct first cells, where the second cell of pair j is
   * not a first cell of an earlier pair, gate j of mix_gates is the MUX
   * between the first cell's fresh wire w0 + 2j + 1 and the second cell's
   * original output, selected by key w0 + 2j, driving the first cell's
   * original output; the first cell now drives the fresh wire.
   */
  lemma MixedTie(cells: map<CellName, CellInfo>, pairs: seq<(CellName, CellName)>, w0: nat, keyValues: seq<bool>, k: nat, j: nat)
    requires k <= |pairs| && k <= |keyValues| && j < k
    requires forall a, b :: 0 <= a < b < |pairs| ==> pairs[a].0 != pairs[b].0
    requires forall a :: 0 <= a < j ==> pairs[a].0 != pairs[j].1
    requires pairs[j].0 in cells && OutputPortName(cells[pairs[j].0]).Ok?
    ensures GetPort(LockedCells(cells, Firsts(pairs), w0, k)[pairs[j].0], OutputPortName(cells[pairs[j].0]).value)
         == Some(w0 + 2 * j + 1)
    ensures MixedGates(cells, pairs, w0, keyValues, k)[j]
         == MuxLock(w0 + 2 * j + 1, OutWire(cells, pairs[j].1), w0 + 2 * j, OutWire(cells, pairs[j].0), keyValues[j])
  {
    MixedTiePort(cells, pairs, w0, k, j);
    MixedTieGate(cells, pairs, w0, keyValues, k, j);
  }

  /** The first half of MixedTie: the first cell's output port reads the MUX output. */
  lemma MixedTiePort(cells: map<CellName, CellInfo>, pairs: seq<(CellName, CellName)>, w0: nat, k: nat, j: nat)
    requires k <= |pairs| && j < k
    requires forall a, b :: 0 <= a < b < |pairs| ==> pairs[a].0 != pairs[b].0
    requires pairs[j].0 in cells && OutputPortName(cells[pairs[j].0]).Ok?
    ensures GetPort(LockedCells(cells, Firsts(pairs), w0, k)[pairs[j].0], OutputPortName(cells[pairs[j].0]).value)
         == Some(w0 + 2 * j + 1)
  {
    var names := Firsts(pairs);
    var n := names[j];
    LockedCellsElsewhere(cells, names, w0, j, n);
    var c := cells[n];
    var p := OutputPortName(c).value;
    GetSetPort(c, p, w0 + 2 * j + 1);
    LockedCellsAfter(cells, names, w0, k, j);
  }

  /** The second half of MixedTie: MUX j selects between the two cells' former outputs. */
  lemma MixedTieGate(cells: map<CellName, CellInfo>, pairs: seq<(CellName, CellName)>, w0: nat, keyValues: seq<bool>, k: nat, j: nat)
    requires k <= |pairs| && k <= |keyValues| && j < k
    requires forall a, b :: 0 <= a < b < |pairs| ==> pairs[a].0 != pairs[b].0
    requires forall a :: 0 <= a < j ==> pairs[a].0 != pairs[j].1
    requires pairs[j].0 in cells && OutputPortName(cells[pairs[j].0]).Ok?
    ensures MixedGates(cells, pairs, w0, keyValues, k)[j]
         == MuxLock(w0 + 2 * j + 1, OutWire(cells, pairs[j].1), w0 + 2 * j, OutWire(cells, pairs[j].0), keyValues[j])
  {
    var names := Firsts(pairs);
    LockedCellsElsewhere(cells, names, w0, j, names[j]);
    LockedCellsElsewhere(cells, names, w0, j, pairs[j].1);
    MixedGatesPrefix(cells, pairs, w0, keyValues, k, j + 1);
  }

  /** The first j MUX gates do not change in later steps. */
  lemma {:induction false} MixedGatesPrefix(cells: map<CellName, CellInfo>, pairs: seq<(CellName, CellName)>, w0: nat,
                                            keyValues: seq<bool>, k: nat, j: nat)
    requires j <= k <= |pairs| && k <= |keyValues|
    ensures MixedGates(cells, pairs, w0, keyValues, k)[..j] == MixedGates(cells, pairs, w0, keyValues, j)
  {
    if k > j {
      MixedGatesPrefix(cells, pairs, w0, keyValues, k - 1, j);
    }
  }

  /** After i steps of lock_gates from cells0, gates0 and w0 wires: keys, wires, cells and gates as the step functions say. */
  ghost predicate LockTrace(cells: map<CellName, CellInfo>, nbWires: nat, gates: seq<Gate>, keys: seq<Wire>,
                            cells0: map<CellName, CellInfo>, gates0: seq<Gate>, w0: nat,
                            names: seq<CellName>, keyValues: seq<bool>)
  {
    |keys| <= |names| && |keys| <= |keyValues| && (forall k :: 0 <= k < |keys| ==> keys[k] == w0 + 2 * k)
    && nbWires == w0 + 2 * |keys| && cells == LockedCells(cells0, names, w0, |keys|)
    && gates == gates0 + LockedGates(cells0, names, w0, keyValues, |keys|)
  }

  /** One more step of lock_gates, as LockOne performs it, follows the step functions. */
  lemma LockTraceStep(cells: map<CellName, CellInfo>, nbWires: nat, gates: seq<Gate>, keys: seq<Wire>,
                      cells0: map<CellName, CellInfo>, gates0: seq<Gate>, w0: nat, names: seq<CellName>, keyValues: seq<bool>,
                      cells': map<CellName, CellInfo>, nbWires': nat, gates': seq<Gate>)
    requires LockTrace(cells, nbWires, gates, keys, cells0, gates0, w0, names, keyValues)
    requires |keys| < |names| && |keys| < |keyValues|
    requires names[|keys|] in cells && OutputPortName(cells[names[|keys|]]).Ok?
    requires var n := names[|keys|]; var p := OutputPortName(cells[n]).value;
      cells' == cells[n := SetPort(cells[n], p, nbWires + 1)] && nbWires' == nbWires + 2
      && gates' == gates + [XorLock(nbWires + 1, nbWires, GetPort(cells[n], p).value, keyValues[|keys|])]
    ensures LockTrace(cells', nbWires', gates', keys + [nbWires], cells0, gates0, w0, names, keyValues)
  {
  }

  /** After i steps of mix_gates: keys, wires, cells and gates as the step functions say. */
  ghost predicate MixTrace(cells: map<CellName, CellInfo>, nbWires: nat, gates: seq<Gate>, keys: seq<Wire>,
                           cells0: map<CellName, CellInfo>, gates0: seq<Gate>, w0: nat,
                           pairs: seq<(CellName, CellName)>, keyValues: seq<bool>)
  {
    |keys| <= |pairs| && |keys| <= |keyValues| && (forall k :: 0 <= k < |keys| ==> keys[k] == w0 + 2 * k)
    && nbWires == w0 + 2 * |keys| && cells == LockedCells(cells0, Firsts(pairs), w0, |keys|)
    && gates == gates0 + MixedGates(cells0, pairs, w0, keyValues, |keys|)
  }

  /** One more step of mix_gates, as MixOne performs it, follows the step functions. */
  lemma MixTraceStep(cells: map<CellName, CellInfo>, nbWires: nat, gates: seq<Gate>, keys: seq<Wire>,
                     cells0: map<CellName, CellInfo>, gates0: seq<Gate>, w0: nat, pairs: seq<(CellName, CellName)>,
                     keyValues: seq<bool>, cells': map<CellName, CellInfo>, nbWires': nat, gates': seq<Gate>)
    requires MixTrace(cells, nbWires, gates, keys, cells0, gates0, w0, pairs, keyValues)
    requires |keys| < |pairs| && |keys| < |keyValues|
    requires pairs[|keys|].0 in cells && pairs[|keys|].1 in cells
    requires OutputPortName(cells[pairs[|keys|].0]).Ok? && OutputPortName(cells[pairs[|keys|].1]).Ok?
    requires var n1, n2 := pairs[|keys|].0, pairs[|keys|].1;
      var p1, p2 := OutputPortName(cells[n1]).value, OutputPortName(cells[n2]).value;
      cells' == cells[n1 := SetPort(cells[n1], p1, nbWires + 1)] && nbWires' == nbWires + 2
      && gates' == gates + [MuxLock(nbWires + 1, GetPort(cells[n2], p2).value, nbWires, GetPort(cells[n1], p1).value,
                                    keyValues[|keys|])]
    ensures MixTrace(cells', nbWires', gates', keys + [nbWires], cells0, gates0, w0, pairs, keyValues)
  {
  }

  /*
   * lock_gates
   */

  /**
   * One iteration of lock_gates: a new key input, then the output port of the
   * cell (an error if it has none) and the key gate on it.
   */
  method LockOne(m: Module, name: CellName, keyValue: bool) returns (r: Result<Wire>)
    requires m.Valid() && name in m.cells
    modifies m
    ensures m.Valid()
    ensures r.Ok? <==> OutputPortName(old(m.cells[name])).Ok?
    ensures r.Err? ==> r == Err(NoOutputPortMessage)
    ensures m.inputs == old(m.inputs) + [old(m.nbWires)]
    ensures r.Err? ==> m.cells == old(m.cells) && m.gates == old(m.gates) && m.nbWires == old(m.nbWires) + 1
    ensures r.Ok? ==>
      var p := OutputPortName(old(m.cells[name])).value;
      && r.value == old(m.nbWires) && m.nbWires == old(m.nbWires) + 2
      && m.cells == old(m.cells)[name := SetPort(old(m.cells[name]), p, old(m.nbWires) + 1)]
      && m.gates == old(m.gates) + [XorLock(old(m.nbWires) + 1, old(m.nbWires), GetPort(old(m.cells[name]), p).value, keyValue)]
  {
    var key := m.AddKeyInput();
    assert m.cells == old(m.cells) && m.gates == old(m.gates);
    var port := OutputPortName(m.cells[name]);
    if port.Err? {
      return Err(port.msg);
    }
    assert port.value == OutputPortName(old(m.cells[name])).value;
    ghost var locked := m.nbWires;
    assert locked == old(m.nbWires) + 1;
    var g := InsertXorLockingGate(m, name, port.value, key, keyValue);
    r := Ok(key);
  }

  /** Every named cell has an output port. */
  ghost predicate HaveOutputPorts(cells: map<CellName, CellInfo>, names: seq<CellName>)
  {
    forall j :: 0 <= j < |names| ==> names[j] in cells && OutputPortName(cells[names[j]]).Ok?
  }

  /** The first k named cells have an output port. */
  ghost predicate HavePortsUpTo(cells: map<CellName, CellInfo>, names: seq<CellName>, k: nat)
  {
    k <= |names| && forall j :: 0 <= j < k ==> names[j] in cells && OutputPortName(cells[names[j]]).Ok?
  }

  lemma HavePortsStep(cells: map<CellName, CellInfo>, names: seq<CellName>, k: nat)
    requires HavePortsUpTo(cells, names, k) && k < |names|
    requires names[k] in cells && OutputPortName(cells[names[k]]).Ok?
    ensures HavePortsUpTo(cells, names, k + 1)
  {}

  lemma HavePortsAll(cells: map<CellName, CellInfo>, names: seq<CellName>)
    requires HavePortsUpTo(cells, names, |names|)
    ensures HaveOutputPorts(cells, names)
  {}

  /** The invariant of the lock_gates loop after |keys| cells. */
  ghost predicate LockLoopState(m: Module, cells0: map<CellName, CellInfo>, gates0: seq<Gate>, inputs0: seq<Wire>, w0: nat,
                                keys: seq<Wire>, names: seq<CellName>, keyValues: seq<bool>)
    reads m
  {
    LockLoopValues(m.cells, m.nbWires, m.inputs, m.gates, cells0, gates0, inputs0, w0, keys, names, keyValues)
  }

  ghost predicate LockLoopValues(cells: map<CellName, CellInfo>, nbWires: nat, inputs: seq<Wire>, gates: seq<Gate>,
                                 cells0: map<CellName, CellInfo>, gates0: seq<Gate>, inputs0: seq<Wire>, w0: nat,
                                 keys: seq<Wire>, names: seq<CellName>, keyValues: seq<bool>)
  {
    |keys| <= |names| && LockingState(cells, nbWires, inputs, gates, cells0, gates0, inputs0, w0, keys, keyValues, false)
    && HavePortsUpTo(cells0, names, |keys|)
    && LockTrace(cells, nbWires, gates, keys, cells0, gates0, w0, names, keyValues)
  }

  /** One step of the lock_gates loop, on the module's values before and after LockOne. */
  lemma LockLoopStep(cells: map<CellName, CellInfo>, nbWires: nat, inputs: seq<Wire>, gates: seq<Gate>,
                     cells0: map<CellName, CellInfo>, gates0: seq<Gate>, inputs0: seq<Wire>, w0: nat,
                     keys: seq<Wire>, names: seq<CellName>, keyValues: seq<bool>,
                     cells': map<CellName, CellInfo>, nbWires': nat, inputs': seq<Wire>, gates': seq<Gate>)
    requires LockLoopValues(cells, nbWires, inputs, gates, cells0, gates0, inputs0, w0, keys, names, keyValues)
    requires |keys| < |names| <= |keyValues| && names[|keys|] in cells0 && names[|keys|] in cells
    requires OutputPortName(cells0[names[|keys|]]).Ok? && OutputPortName(cells[names[|keys|]]).Ok?
    requires var n := names[|keys|]; var p := OutputPortName(cells[n]).value;
      cells' == cells[n := SetPort(cells[n], p, nbWires + 1)] && nbWires' == nbWires + 2 && inputs' == inputs + [nbWires]
      && gates' == gates + [XorLock(nbWires + 1, nbWires, GetPort(cells[n], p).value, keyValues[|keys|])]
    ensures LockLoopValues(cells', nbWires', inputs', gates', cells0, gates0, inputs0, w0, keys + [nbWires], names, keyValues)
  {
    var n := names[|keys|];
    var p := OutputPortName(cells[n]).value;
    var g := XorLock(nbWires + 1, nbWires, GetPort(cells[n], p).value, keyValues[|keys|]);
    XorLockKeyed(nbWires, GetPort(cells[n], p).value, keyValues[|keys|]);
    HavePortsStep(cells0, names, |keys|);
    LockingStep(cells, nbWires, inputs, gates, cells0, gates0, inputs0, w0, keys, keyValues, false, n, p,
                g, cells', nbWires', inputs', gates', keys + [nbWires]);
    LockTraceStep(cells, nbWires, gates, keys, cells0, gates0, w0, names, keyValues, cells', nbWires', gates');
  }

  /** The body of the lock_gates loop, from one loop state to the next. */
  method LockNext(m: Module, names: seq<CellName>, i: nat, keyValues: seq<bool>, ghost cells0: map<CellName, CellInfo>,
                  ghost gates0: seq<Gate>, ghost inputs0: seq<Wire>, ghost w0: nat, ghost keys: seq<Wire>)
    returns (key: Result<Wire>)
    requires i < |names| <= |keyValues| && |keys| == i && names[i] in cells0
    requires LockLoopValues(m.cells, m.nbWires, m.inputs, m.gates, cells0, gates0, inputs0, w0, keys, names, keyValues)
    modifies m
    ensures m.Valid() && SameShape(m.cells, cells0) && gates0 <= m.gates
    ensures key.Ok? <==> OutputPortName(cells0[names[i]]).Ok?
    ensures key.Ok? ==> LockLoopValues(m.cells, m.nbWires, m.inputs, m.gates, cells0, gates0, inputs0, w0, keys + [key.value], names, keyValues)
    ensures key.Err? ==> key.msg == NoOutputPortMessage && !HaveOutputPorts(cells0, names)
  {
    key := LockOne(m, names[i], keyValues[i]);
    LockNextValues(old(m.cells), old(m.nbWires), old(m.inputs), old(m.gates), cells0, gates0, inputs0, w0, keys, names, keyValues,
                   key, m.cells, m.nbWires, m.inputs, m.gates);
  }

  /** LockNext on the module's values before and after LockOne, on both of LockOne's outcomes. */
  lemma LockNextValues(cells: map<CellName, CellInfo>, nbWires: nat, inputs: seq<Wire>, gates: seq<Gate>,
                       cells0: map<CellName, CellInfo>, gates0: seq<Gate>, inputs0: seq<Wire>, w0: nat,
                       keys: seq<Wire>, names: seq<CellName>, keyValues: seq<bool>,
                       key: Result<Wire>, cells': map<CellName, CellInfo>, nbWires': nat, inputs': seq<Wire>, gates': seq<Gate>)
    requires LockLoopValues(cells, nbWires, inputs, gates, cells0, gates0, inputs0, w0, keys, names, keyValues)
    requires |keys| < |names| <= |keyValues| && names[|keys|] in cells0 && names[|keys|] in cells
    requires key.Ok? <==> OutputPortName(cells[names[|keys|]]).Ok?
    requires key.Err? ==> cells' == cells && gates' == gates
    requires key.Ok? ==>
      var n := names[|keys|];
      var p := OutputPortName(cells[n]).value;
      && key.value == nbWires && nbWires' == nbWires + 2 && inputs' == inputs + [nbWires]
      && cells' == cells[n := SetPort(cells[n], p, nbWires + 1)]
      && gates' == gates + [XorLock(nbWires + 1, nbWires, GetPort(cells[n], p).value, keyValues[|keys|])]
    ensures SameShape(cells', cells0) && gates0 <= gates'
    ensures key.Ok? <==> OutputPortName(cells0[names[|keys|]]).Ok?
    ensures key.Ok? ==> LockLoopValues(cells', nbWires', inputs', gates', cells0, gates0, inputs0, w0, keys + [key.value], names, keyValues)
    ensures key.Err? ==> !HaveOutputPorts(cells0, names)
  {
    var n := names[|keys|];
    OutputPortNameByPorts(cells[n], cells0[n]);
    if key.Ok? {
      LockLoopStep(cells, nbWires, inputs, gates, cells0, gates0, inputs0, w0, keys, names, keyValues, cells', nbWires', inputs', gates');
      StateShape(cells', nbWires', inputs', gates', cells0, gates0, inputs0, w0, keys + [key.value], keyValues, false);
    } else {
      StateShape(cells, nbWires, inputs, gates, cells0, gates0, inputs0, w0, keys, keyValues, false);
      MissingPort(cells0, names, |keys|);
    }
  }

  /** A cell without an output port among the named ones: not every named cell has one. */
  lemma MissingPort(cells: map<CellName, CellInfo>, names: seq<CellName>, i: nat)
    requires i < |names| && names[i] in cells && !OutputPortName(cells[names[i]]).Ok?
    ensures !HaveOutputPorts(cells, names)
  {
  }

  /**
   * lock_gates over cells: more cells than key values is an error (extra
   * values are ignored); otherwise each cell gets its own new key input and
   * a XOR/XNOR gate on its output port. A cell without an output port stops
   * the loop with an error, leaving the gates inserted so far.
   */
  method LockGates(m: Module, names: seq<CellName>, keyValues: seq<bool>) returns (r: Result<seq<Wire>>)
    requires m.Valid() && forall i :: 0 <= i < |names| ==> names[i] in m.cells
    modifies m
    ensures m.Valid() && SameShape(m.cells, old(m.cells))
    ensures |names| > |keyValues| ==> r == Err(CountMessage) && m.gates == old(m.gates) && m.inputs == old(m.inputs)
    ensures r.Ok? <==> |names| <= |keyValues| && HaveOutputPorts(old(m.cells), names)
    ensures r.Ok? ==> |r.value| == |names| && FreshKeys(r.value, old(m.nbWires))
    ensures r.Ok? ==> m.inputs == old(m.inputs) + r.value
    ensures r.Ok? ==> |m.gates| == |old(m.gates)| + |names| && KeyedGates(m.gates[|old(m.gates)|..], r.value, keyValues, false)
    ensures old(m.gates) <= m.gates
    ensures r.Ok? ==> forall k :: 0 <= k < |names| ==> r.value[k] == old(m.nbWires) + 2 * k
    ensures r.Ok? ==> m.cells == LockedCells(old(m.cells), names, old(m.nbWires), |names|)
    ensures r.Ok? ==> m.gates == old(m.gates) + LockedGates(old(m.cells), names, old(m.nbWires), keyValues, |names|)
  {
    if |names| > |keyValues| {
      return Err(CountMessage);
    }
    r := LockLoop(m, names, keyValues);
  }

  /** The loop of lock_gates: one step per cell, stopping at the first cell without an output port. */
  method LockLoop(m: Module, names: seq<CellName>, keyValues: seq<bool>) returns (r: Result<seq<Wire>>)
    requires m.Valid() && (forall i :: 0 <= i < |names| ==> names[i] in m.cells) && |names| <= |keyValues|
    modifies m
    ensures m.Valid() && SameShape(m.cells, old(m.cells)) && old(m.gates) <= m.gates
    ensures r.Ok? <==> HaveOutputPorts(old(m.cells), names)
    ensures r.Ok? ==> |r.value| == |names|
    ensures r.Ok? ==> LockLoopState(m, old(m.cells), old(m.gates), old(m.inputs), old(m.nbWires), r.value, names, keyValues)
  {
    ghost var cells0, gates0, inputs0, w0 := m.cells, m.gates, m.inputs, m.nbWires;
    var keys: seq<Wire> := [];
    LockingStart(m.cells, m.nbWires, m.inputs, m.gates, keyValues, false);
    for i := 0 to |names|
      invariant |keys| == i && LockLoopState(m, cells0, gates0, inputs0, w0, keys, names, keyValues)
    {
      var key := LockNext(m, names, i, keyValues, cells0, gates0, inputs0, w0, keys);
      if key.Err? {
        return Err(key.msg);
      }
      keys := keys + [key.value];
    }
    HavePortsAll(cells0, names);
    r := Ok(keys);
  }

  /*
   * mix_gates
   */

  /**
   * One iteration of mix_gates: a new key input, then the output ports of
   * both cells (an error if either has none, the first cell checked first)
   * and the MUX on the first cell's port.
   */
  method MixOne(m: Module, name1: CellName, name2: CellName, keyValue: bool) returns (r: Result<Wire>)
    requires m.Valid() && name1 in m.cells && name2 in m.cells
    modifies m
    ensures m.Valid()
    ensures r.Ok? <==> OutputPortName(old(m.cells[name1])).Ok? && OutputPortName(old(m.cells[name2])).Ok?
    ensures r.Err? ==> r == Err(NoOutputPortMessage)
    ensures m.inputs == old(m.inputs) + [old(m.nbWires)]
    ensures r.Err? ==> m.cells == old(m.cells) && m.gates == old(m.gates) && m.nbWires == old(m.nbWires) + 1
    ensures r.Ok? ==>
      var p1, p2 := OutputPortName(old(m.cells[name1])).value, OutputPortName(old(m.cells[name2])).value;
      && r.value == old(m.nbWires) && m.nbWires == old(m.nbWires) + 2
      && m.cells == old(m.cells)[name1 := SetPort(old(m.cells[name1]), p1, old(m.nbWires) + 1)]
      && m.gates == old(m.gates) + [MuxLock(old(m.nbWires) + 1, GetPort(old(m.cells[name2]), p2).value, old(m.nbWires),
                                            GetPort(old(m.cells[name1]), p1).value, keyValue)]
  {
    var key := m.AddKeyInput();
    assert m.cells == old(m.cells) && m.gates == old(m.gates);
    var port1 := OutputPortName(m.cells[name1]);
    if port1.Err? {
      return Err(port1.msg);
    }
    var port2 := OutputPortName(m.cells[name2]);
    if port2.Err? {
      return Err(port2.msg);
    }
    assert port1.value == OutputPortName(old(m.cells[name1])).value;
    assert port2.value == OutputPortName(old(m.cells[name2])).value;
    MixPortsPassChecks(m.cells[name1], m.cells[name2]);
    ghost var locked := m.nbWires;
    assert locked == old(m.nbWires) + 1;
    var g := InsertMuxLockingGate(m, name1, port1.value, name2, port2.value, key, keyValue);
    r := Ok(key);
  }

  /** Both cells of every pair exist and have an output port. */
  ghost predicate PairsHaveOutputPorts(cells: map<CellName, CellInfo>, pairs: seq<(CellName, CellName)>)
  {
    forall j :: 0 <= j < |pairs| ==>
      pairs[j].0 in cells && pairs[j].1 in cells
      && OutputPortName(cells[pairs[j].0]).Ok? && OutputPortName(cells[pairs[j].1]).Ok?
  }

  /** Both cells of each of the first k pairs exist and have an output port. */
  ghost predicate PairsHavePortsUpTo(cells: map<CellName, CellInfo>, pairs: seq<(CellName, CellName)>, k: nat)
  {
    k <= |pairs| && forall j :: 0 <= j < k ==>
      pairs[j].0 in cells && pairs[j].1 in cells
      && OutputPortName(cells[pairs[j].0]).Ok? && OutputPortName(cells[pairs[j].1]).Ok?
  }

  lemma PairsHavePortsStep(cells: map<CellName, CellInfo>, pairs: seq<(CellName, CellName)>, k: nat)
    requires PairsHavePortsUpTo(cells, pairs, k) && k < |pairs|
    requires pairs[k].0 in cells && pairs[k].1 in cells
    requires OutputPortName(cells[pairs[k].0]).Ok? && OutputPortName(cells[pairs[k].1]).Ok?
    ensures PairsHavePortsUpTo(cells, pairs, k + 1)
  {}

  lemma PairsHavePortsAll(cells: map<CellName, CellInfo>, pairs: seq<(CellName, CellName)>)
    requires PairsHavePortsUpTo(cells, pairs, |pairs|)
    ensures PairsHaveOutputPorts(cells, pairs)
  {}

  /** The invariant of the mix_gates loop after |keys| pairs. */
  ghost predicate MixLoopState(m: Module, cells0: map<CellName, CellInfo>, gates0: seq<Gate>, inputs0: seq<Wire>, w0: nat,
                               keys: seq<Wire>, pairs: seq<(CellName, CellName)>, keyValues: seq<bool>)
    reads m
  {
    MixLoopValues(m.cells, m.nbWires, m.inputs, m.gates, cells0, gates0, inputs0, w0, keys, pairs, keyValues)
  }

  ghost predicate MixLoopValues(cells: map<CellName, CellInfo>, nbWires: nat, inputs: seq<Wire>, gates: seq<Gate>,
                                cells0: map<CellName, CellInfo>, gates0: seq<Gate>, inputs0: seq<Wire>, w0: nat,
                                keys: seq<Wire>, pairs: seq<(CellName, CellName)>, keyValues: seq<bool>)
  {
    |keys| <= |pairs| && LockingState(cells, nbWires, inputs, gates, cells0, gates0, inputs0, w0, keys, keyValues, true)
    && PairsHavePortsUpTo(cells0, pairs, |keys|)
    && MixTrace(cells, nbWires, gates, keys, cells0, gates0, w0, pairs, keyValues)
  }

  /** One step of the mix_gates loop, on the module's values before and after MixOne. */
  lemma MixLoopStep(cells: map<CellName, CellInfo>, nbWires: nat, inputs: seq<Wire>, gates: seq<Gate>,
                    cells0: map<CellName, CellInfo>, gates0: seq<Gate>, inputs0: seq<Wire>, w0: nat,
                    keys: seq<Wire>, pairs: seq<(CellName, CellName)>, keyValues: seq<bool>,
                    cells': map<CellName, CellInfo>, nbWires': nat, inputs': seq<Wire>, gates': seq<Gate>)
    requires MixLoopValues(cells, nbWires, inputs, gates, cells0, gates0, inputs0, w0, keys, pairs, keyValues)
    requires |keys| < |pairs| <= |keyValues|
    requires pairs[|keys|].0 in cells0 && pairs[|keys|].1 in cells0 && pairs[|keys|].0 in cells && pairs[|keys|].1 in cells
    requires OutputPortName(cells0[pairs[|keys|].0]).Ok? && OutputPortName(cells0[pairs[|keys|].1]).Ok?
    requires OutputPortName(cells[pairs[|keys|].0]).Ok? && OutputPortName(cells[pairs[|keys|].1]).Ok?
    requires var n1, n2 := pairs[|keys|].0, pairs[|keys|].1;
      var p1, p2 := OutputPortName(cells[n1]).value, OutputPortName(cells[n2]).value;
      cells' == cells[n1 := SetPort(cells[n1], p1, nbWires + 1)] && nbWires' == nbWires + 2 && inputs' == inputs + [nbWires]
      && gates' == gates + [MuxLock(nbWires + 1, GetPort(cells[n2], p2).value, nbWires, GetPort(cells[n1], p1).value,
                                    keyValues[|keys|])]
    ensures MixLoopValues(cells', nbWires', inputs', gates', cells0, gates0, inputs0, w0, keys + [nbWires], pairs, keyValues)
  {
    var n1, n2 := pairs[|keys|].0, pairs[|keys|].1;
    var p1, p2 := OutputPortName(cells[n1]).value, OutputPortName(cells[n2]).value;
    var g := MuxLock(nbWires + 1, GetPort(cells[n2], p2).value, nbWires, GetPort(cells[n1], p1).value, keyValues[|keys|]);
    MuxLockKeyed(nbWires, GetPort(cells[n2], p2).value, GetPort(cells[n1], p1).value, keyValues[|keys|]);
    PairsHavePortsStep(cells0, pairs, |keys|);
    LockingStep(cells, nbWires, inputs, gates, cells0, gates0, inputs0, w0, keys, keyValues, true, n1, p1,
                g, cells', nbWires', inputs', gates', keys + [nbWires]);
    MixTraceStep(cells, nbWires, gates, keys, cells0, gates0, w0, pairs, keyValues, cells', nbWires', gates');
  }

  /** The body of the mix_gates loop, from one loop state to the next. */
  method MixNext(m: Module, pairs: seq<(CellName, CellName)>, i: nat, keyValues: seq<bool>,
                 ghost cells0: map<CellName, CellInfo>, ghost gates0: seq<Gate>, ghost inputs0: seq<Wire>, ghost w0: nat,
                 ghost keys: seq<Wire>)
    returns (key: Result<Wire>)
    requires i < |pairs| == |keyValues| && |keys| == i && pairs[i].0 in cells0 && pairs[i].1 in cells0
    requires MixLoopValues(m.cells, m.nbWires, m.inputs, m.gates, cells0, gates0, inputs0, w0, keys, pairs, keyValues)
    modifies m
    ensures m.Valid() && SameShape(m.cells, cells0) && gates0 <= m.gates
    ensures key.Ok? <==> OutputPortName(cells0[pairs[i].0]).Ok? && OutputPortName(cells0[pairs[i].1]).Ok?
    ensures key.Ok? ==> MixLoopValues(m.cells, m.nbWires, m.inputs, m.gates, cells0, gates0, inputs0, w0, keys + [key.value], pairs, keyValues)
    ensures key.Err? ==> key.msg == NoOutputPortMessage && !PairsHaveOutputPorts(cells0, pairs)
  {
    key := MixOne(m, pairs[i].0, pairs[i].1, keyValues[i]);
    MixNextValues(old(m.cells), old(m.nbWires), old(m.inputs), old(m.gates), cells0, gates0, inputs0, w0, keys, pairs, keyValues,
                  key, m.cells, m.nbWires, m.inputs, m.gates);
  }

  /** MixNext on the module's values before and after MixOne, on both of MixOne's outcomes. */
  lemma MixNextValues(cells: map<CellName, CellInfo>, nbWires: nat, inputs: seq<Wire>, gates: seq<Gate>,
                      cells0: map<CellName, CellInfo>, gates0: seq<Gate>, inputs0: seq<Wire>, w0: nat,
                      keys: seq<Wire>, pairs: seq<(CellName, CellName)>, keyValues: seq<bool>,
                      key: Result<Wire>, cells': map<CellName, CellInfo>, nbWires': nat, inputs': seq<Wire>, gates': seq<Gate>)
    requires MixLoopValues(cells, nbWires, inputs, gates, cells0, gates0, inputs0, w0, keys, pairs, keyValues)
    requires |keys| < |pairs| == |keyValues| && pairs[|keys|].0 in cells0 && pairs[|keys|].1 in cells0
    requires pairs[|keys|].0 in cells && pairs[|keys|].1 in cells
    requires key.Ok? <==> OutputPortName(cells[pairs[|keys|].0]).Ok? && OutputPortName(cells[pairs[|keys|].1]).Ok?
    requires key.Err? ==> cells' == cells && gates' == gates
    requires key.Ok? ==>
      var n1, n2 := pairs[|keys|].0, pairs[|keys|].1;
      var p1, p2 := OutputPortName(cells[n1]).value, OutputPortName(cells[n2]).value;
      && key.value == nbWires && nbWires' == nbWires + 2 && inputs' == inputs + [nbWires]
      && cells' == cells[n1 := SetPort(cells[n1], p1, nbWires + 1)]
      && gates' == gates + [MuxLock(nbWires + 1, GetPort(cells[n2], p2).value, nbWires, GetPort(cells[n1], p1).value,
                                    keyValues[|keys|])]
    ensures SameShape(cells', cells0) && gates0 <= gates'
    ensures key.Ok? <==> OutputPortName(cells0[pairs[|keys|].0]).Ok? && OutputPortName(cells0[pairs[|keys|].1]).Ok?
    ensures key.Ok? ==> MixLoopValues(cells', nbWires', inputs', gates', cells0, gates0, inputs0, w0, keys + [key.value], pairs, keyValues)
    ensures key.Err? ==> !PairsHaveOutputPorts(cells0, pairs)
  {
    var n1, n2 := pairs[|keys|].0, pairs[|keys|].1;
    OutputPortNameByPorts(cells[n1], cells0[n1]);
    OutputPortNameByPorts(cells[n2], cells0[n2]);
    if key.Ok? {
      MixLoopStep(cells, nbWires, inputs, gates, cells0, gates0, inputs0, w0, keys, pairs, keyValues, cells', nbWires', inputs', gates');
      StateShape(cells', nbWires', inputs', gates', cells0, gates0, inputs0, w0, keys + [key.value], keyValues, true);
    } else {
      StateShape(cells, nbWires, inputs, gates, cells0, gates0, inputs0, w0, keys, keyValues, true);
      PairMissingPort(cells0, pairs, |keys|);
    }
  }

  /** A pair with a cell without an output port: not every pair has its two ports. */
  lemma PairMissingPort(cells: map<CellName, CellInfo>, pairs: seq<(CellName, CellName)>, i: nat)
    requires i < |pairs| && pairs[i].0 in cells && pairs[i].1 in cells
    requires !(OutputPortName(cells[pairs[i].0]).Ok? && OutputPortName(cells[pairs[i].1]).Ok?)
    ensures !PairsHaveOutputPorts(cells, pairs)
  {
  }

  /**
   * mix_gates over pairs of cells: the pair count must equal the number of
   * key values; each pair gets its own new key input and a MUX that drives
   * the first cell's output from either that cell or the second one. A cell
   * without an output port stops the loop with an error.
   */
  method MixGates(m: Module, pairs: seq<(CellName, CellName)>, keyValues: seq<bool>) returns (r: Result<seq<Wire>>)
    requires m.Valid() && forall i :: 0 <= i < |pairs| ==> pairs[i].0 in m.cells && pairs[i].1 in m.cells
    modifies m
    ensures m.Valid() && SameShape(m.cells, old(m.cells))
    ensures |pairs| != |keyValues| ==> r == Err(CountMessage) && m.gates == old(m.gates) && m.inputs == old(m.inputs)
    ensures r.Ok? <==> |pairs| == |keyValues| && PairsHaveOutputPorts(old(m.cells), pairs)
    ensures r.Ok? ==> |r.value| == |pairs| && FreshKeys(r.value, old(m.nbWires))
    ensures r.Ok? ==> m.inputs == old(m.inputs) + r.value
    ensures r.Ok? ==> |m.gates| == |old(m.gates)| + |pairs| && KeyedGates(m.gates[|old(m.gates)|..], r.value, keyValues, true)
    ensures old(m.gates) <= m.gates
    ensures r.Ok? ==> forall k :: 0 <= k < |pairs| ==> r.value[k] == old(m.nbWires) + 2 * k
    ensures r.Ok? ==> m.cells == LockedCells(old(m.cells), Firsts(pairs), old(m.nbWires), |pairs|)
    ensures r.Ok? ==> m.gates == old(m.gates) + MixedGates(old(m.cells), pairs, old(m.nbWires), keyValues, |pairs|)
  {
    if |pairs| != |keyValues| {
      return Err(CountMessage);
    }
    r := MixLoop(m, pairs, keyValues);
  }

  /** The loop of mix_gates: one step per pair, stopping at the first cell without an output port. */
  method MixLoop(m: Module, pairs: seq<(CellName, CellName)>, keyValues: seq<bool>) returns (r: Result<seq<Wire>>)
    requires m.Valid() && (forall i :: 0 <= i < |pairs| ==> pairs[i].0 in m.cells && pairs[i].1 in m.cells)
    requires |pairs| == |keyValues|
    modifies m
    ensures m.Valid() && SameShape(m.cells, old(m.cells)) && old(m.gates) <= m.gates
    ensures r.Ok? <==> PairsHaveOutputPorts(old(m.cells), pairs)
    ensures r.Ok? ==> |r.value| == |pairs|
    ensures r.Ok? ==> MixLoopState(m, old(m.cells), old(m.gates), old(m.inputs), old(m.nbWires), r.value, pairs, keyValues)
  {
    ghost var cells0, gates0, inputs0, w0 := m.cells, m.gates, m.inputs, m.nbWires;
    var keys: seq<Wire> := [];
    LockingStart(m.cells, m.nbWires, m.inputs, m.gates, keyValues, true);
    for i := 0 to |pairs|
      invariant |keys| == i && MixLoopState(m, cells0, gates0, inputs0, w0, keys, pairs, keyValues)
    {
      var key := MixNext(m, pairs, i, keyValues, cells0, gates0, inputs0, w0, keys);
      if key.Err? {
        return Err(key.msg);
      }
      keys := keys + [key.value];
    }
    PairsHavePortsAll(cells0, pairs);
    r := Ok(keys);
  }

  /*
   * The overloads by cell name.
   */

  /** The first name with no cell in the module, if any. */
  function FirstMissing(cells: map<CellName, CellInfo>, names: seq<CellName>): (r: Option<CellName>)
    ensures r.Some? ==> r.value !in cells
  {
    if names == [] then None
    else if names[0] !in cells then Some(names[0])
    else FirstMissing(cells, names[1..])
  }

  /** FirstMissing is None exactly when every name resolves, and otherwise names the first one that does not. */
  lemma {:induction false} FirstMissingSpec(cells: map<CellName, CellInfo>, names: seq<CellName>)
    ensures FirstMissing(cells, names).None? <==> forall i :: 0 <= i < |names| ==> names[i] in cells
    ensures FirstMissing(cells, names).Some? ==>
      exists k :: 0 <= k < |names| && names[k] == FirstMissing(cells, names).value
                  && forall j :: 0 <= j < k ==> names[j] in cells
  {
    if names != [] && names[0] in cells {
      FirstMissingSpec(cells, names[1..]);
      assert forall i :: 1 <= i < |names| ==> names[1..][i - 1] == names[i];
      if FirstMissing(cells, names).Some? {
        var k :| 0 <= k < |names[1..]| && names[1..][k] == FirstMissing(cells, names).value
                 && forall j :: 0 <= j < k ==> names[1..][j] in cells;
        assert names[k + 1] == FirstMissing(cells, names).value;
      }
    }
  }

  /** The lookup loop of the overloads by name: the first missing name stops it. */
  method FindMissing(cells: map<CellName, CellInfo>, names: seq<CellName>) returns (missing: Option<CellName>)
    ensures missing == FirstMissing(cells, names)
  {
    for i := 0 to |names|
      invariant FirstMissing(cells, names) == FirstMissing(cells, names[i..])
    {
      assert names[i..][1..] == names[i + 1..];
      if names[i] !in cells {
        return Some(names[i]);
      }
    }
    assert names[|names|..] == [];
    return None;
  }

  /** lock_gates by name: a missing cell is reported by name before anything changes. */
  method LockGatesByName(m: Module, names: seq<CellName>, keyValues: seq<bool>) returns (r: Result<seq<Wire>>)
    requires m.Valid()
    modifies m
    ensures m.Valid() && SameShape(m.cells, old(m.cells))
    ensures FirstMissing(old(m.cells), names).Some? ==>
      r == Err(NotFoundMessage(FirstMissing(old(m.cells), names).value)) && m.gates == old(m.gates) && m.inputs == old(m.inputs)
    ensures r.Ok? <==> FirstMissing(old(m.cells), names).None? && |names| <= |keyValues| && HaveOutputPorts(old(m.cells), names)
    ensures r.Ok? ==> |r.value| == |names| && FreshKeys(r.value, old(m.nbWires)) && m.inputs == old(m.inputs) + r.value
    ensures r.Ok? ==> |m.gates| == |old(m.gates)| + |names| && KeyedGates(m.gates[|old(m.gates)|..], r.value, keyValues, false)
    ensures r.Ok? ==> m.cells == LockedCells(old(m.cells), names, old(m.nbWires), |names|)
    ensures r.Ok? ==> m.gates == old(m.gates) + LockedGates(old(m.cells), names, old(m.nbWires), keyValues, |names|)
  {
    var missing := FindMissing(m.cells, names);
    if missing.Some? {
      return Err(NotFoundMessage(missing.value));
    }
    FirstMissingSpec(m.cells, names);
    r := LockGates(m, names, keyValues);
  }

  /** The first unresolved name among the pairs: the first cell's name if it is missing, else the second's. */
  function FirstMissingInPairs(cells: map<CellName, CellInfo>, pairs: seq<(CellName, CellName)>): (r: Option<CellName>)
    ensures r.Some? ==> r.value !in cells
  {
    if pairs == [] then None
    else if pairs[0].0 !in cells then Some(pairs[0].0)
    else if pairs[0].1 !in cells then Some(pairs[0].1)
    else FirstMissingInPairs(cells, pairs[1..])
  }

  /** FirstMissingInPairs is None exactly when both names of every pair resolve. */
  lemma {:induction false} FirstMissingInPairsSpec(cells: map<CellName, CellInfo>, pairs: seq<(CellName, CellName)>)
    ensures FirstMissingInPairs(cells, pairs).None? <==>
      forall i :: 0 <= i < |pairs| ==> pairs[i].0 in cells && pairs[i].1 in cells
    ensures FirstMissingInPairs(cells, pairs).Some? ==>
      exists k :: 0 <= k < |pairs| && FirstMissingInPairs(cells, pairs).value in {pairs[k].0, pairs[k].1}
                  && forall j :: 0 <= j < k ==> pairs[j].0 in cells && pairs[j].1 in cells
  {
    if pairs == [] {
    } else if pairs[0].0 in cells && pairs[0].1 in cells {
      var rest := pairs[1..];
      var r := FirstMissingInPairs(cells, rest);
      FirstMissingInPairsSpec(cells, rest);
      assert FirstMissingInPairs(cells, pairs) == r;
      assert forall i :: 1 <= i < |pairs| ==> rest[i - 1] == pairs[i];
      if r.Some? {
        var k :| 0 <= k < |rest| && r.value in {rest[k].0, rest[k].1}
                 && forall j :: 0 <= j < k ==> rest[j].0 in cells && rest[j].1 in cells;
        assert pairs[k + 1] == rest[k];
        assert forall j :: 0 <= j < k + 1 ==> pairs[j].0 in cells && pairs[j].1 in cells;
      }
    } else {
      var r := FirstMissingInPairs(cells, pairs);
      assert r.value in {pairs[0].0, pairs[0].1};
    }
  }

  /** The lookup loop of mix_gates by name. */
  method FindMissingInPairs(cells: map<CellName, CellInfo>, pairs: seq<(CellName, CellName)>) returns (missing: Option<CellName>)
    ensures missing == FirstMissingInPairs(cells, pairs)
  {
    for i := 0 to |pairs|
      invariant FirstMissingInPairs(cells, pairs) == FirstMissingInPairs(cells, pairs[i..])
    {
      assert pairs[i..][1..] == pairs[i + 1..];
      if pairs[i].0 !in cells {
        return Some(pairs[i].0);
      } else if pairs[i].1 !in cells {
        return Some(pairs[i].1);
      }
    }
    assert pairs[|pairs|..] == [];
    return None;
  }

  /** mix_gates by name: a missing cell is reported by name before anything changes. */
  method MixGatesByName(m: Module, pairs: seq<(CellName, CellName)>, keyValues: seq<bool>) returns (r: Result<seq<Wire>>)
    requires m.Valid()
    modifies m
    ensures m.Valid() && SameShape(m.cells, old(m.cells))
    ensures FirstMissingInPairs(old(m.cells), pairs).Some? ==>
      r == Err(NotFoundMessage(FirstMissingInPairs(old(m.cells), pairs).value)) && m.gates == old(m.gates) && m.inputs == old(m.inputs)
    ensures r.Ok? <==> FirstMissingInPairs(old(m.cells), pairs).None? && |pairs| == |keyValues| && PairsHaveOutputPorts(old(m.cells), pairs)
    ensures r.Ok? ==> |r.value| == |pairs| && FreshKeys(r.value, old(m.nbWires)) && m.inputs == old(m.inputs) + r.value
    ensures r.Ok? ==> |m.gates| == |old(m.gates)| + |pairs| && KeyedGates(m.gates[|old(m.gates)|..], r.value, keyValues, true)
    ensures r.Ok? ==> m.cells == LockedCells(old(m.cells), Firsts(pairs), old(m.nbWires), |pairs|)
    ensures r.Ok? ==> m.gates == old(m.gates) + MixedGates(old(m.cells), pairs, old(m.nbWires), keyValues, |pairs|)
  {
    var missing := FindMissingInPairs(m.cells, pairs);
    if missing.Some? {
      return Err(NotFoundMessage(missing.value));
    }
    FirstMissingInPairsSpec(m.cells, pairs);
    r := MixGates(m, pairs, keyValues);
  }
}
