/** The gate translator: each line of a Clifford+T QASM circuit becomes one or
    more records of a Pauli-product rotation (or measurement) over all qubits,
    with the line's classical condition written out as text. */
module Translate {
  import opened Wrappers
  import opened Text
  import opened Pauli
  import opened ConditionText
  import opened Instructions

  /** The exceptions the translator can raise. */
  datatype Error =
    | NotAnInteger(text: string)      // `int(...)` raises ValueError
    | IndexOutOfRange(index: int)     // `joint[index] = basis` raises IndexError
    | MissingOperand(line: string)    // `qubits[1]` raises IndexError
    | MalformedMeasure(line: string)  // unpacking `line.split(" -> ")` raises ValueError
    | Unsupported(line: string)       // `raise ValueError(line)`

  /** One written record: the instruction kind, the angle field, one Pauli per
      qubit, the classical-bit field and the condition text. A field left at
      its `""` default is `None`. */
  datatype Record = Record(
    kind: Kind,
    angle: Option<int>,
    paulis: seq<Pauli>,
    cbit: Option<int>,
    condition: string)

  /** Python's `int(text)` with its failure as an error value. */
  function ToInt(text: string): (r: Result<int, Error>)
    ensures r.Success? <==> ParseInt(text).Some?
    ensures r.Success? ==> r.value == ParseInt(text).value
    ensures r.Failure? ==> r.error == NotAnInteger(text)
  {
    match ParseInt(text)
    case None => Failure(NotAnInteger(text))
    case Some(n) => Success(n)
  }

  // ---------------------------------------------------------------------
  // get_index
  // ---------------------------------------------------------------------

  /** `get_index`: a register reference `q[i]` gives `i`; a classical target
      of a measurement in an iterative (IQPE) circuit gives instead the number
      after the first character of the register name (`c3[0]` gives 3); text
      without a bracket gives the number after its first character. */
  function GetIndex(s: string, isMeasurementCbit: bool, isIterative: bool): (r: Result<int, Error>)
    ensures r.Failure? ==> r.error.NotAnInteger?
  {
    if '[' in s then
      SplitFindsSeparator(s, '[');
      var parsed := Split(s, "[");
      if isMeasurementCbit && isIterative then ToInt(Drop(parsed[0], 1))
      else ToInt(Split(parsed[1], "]")[0])
    else ToInt(Drop(s, 1))
  }

  /** The bracketed index of `name[i]...` is read back, whatever follows the
      closing bracket, unless it is a measurement target in iterative mode. */
  lemma GetIndexOfRegister(name: string, i: int, rest: string, isMeasurementCbit: bool, isIterative: bool)
    requires '[' !in name
    requires !(isMeasurementCbit && isIterative)
    ensures GetIndex(name + "[" + IntToString(i) + "]" + rest, isMeasurementCbit, isIterative) == Success(i)
  {
    var digits := IntToString(i);
    var s := name + "[" + digits + "]" + rest;
    assert s == name + "[" + (digits + "]" + rest);
    SplitAfterPiece(name, digits + "]" + rest, "[");
    var second := Split(digits + "]" + rest, "[");
    NoBracketInNumber(i);
    assert (digits + "]") + rest == digits + "]" + rest;
    SplitHeadAppend(digits + "]", rest, '[');
    assert second[0] == digits + "]" + Split(rest, "[")[0];
    SplitAfterPiece(digits, Split(rest, "[")[0], "]");
    ParseIntToString(i);
  }

  /** In iterative mode a measurement target `cR[i]` gives the register
      number `R`, not the bracketed index. */
  lemma GetIndexIterativeTarget(c: char, register: int, i: int, rest: string)
    requires c != '['
    ensures GetIndex([c] + IntToString(register) + "[" + IntToString(i) + "]" + rest, true, true) == Success(register)
  {
    var name := [c] + IntToString(register);
    NoBracketInNumber(register);
    assert '[' !in name;
    var s := name + "[" + IntToString(i) + "]" + rest;
    assert s == name + "[" + (IntToString(i) + "]" + rest);
    SplitAfterPiece(name, IntToString(i) + "]" + rest, "[");
    assert name[1..] == IntToString(register);
    ParseIntToString(register);
  }

  /** Without a bracket the number after the first character is read. */
  lemma GetIndexWithoutBracket(c: char, n: int, isMeasurementCbit: bool, isIterative: bool)
    requires c != '['
    ensures GetIndex([c] + IntToString(n), isMeasurementCbit, isIterative) == Success(n)
  {
    NoBracketInNumber(n);
    assert '[' !in [c] + IntToString(n);
    assert ([c] + IntToString(n))[1..] == IntToString(n);
    ParseIntToString(n);
  }

  lemma NoBracketInNumber(n: int)
    ensures '[' !in IntToString(n) && ']' !in IntToString(n)
  {
  }

  // ---------------------------------------------------------------------
  // write_instruction
  // ---------------------------------------------------------------------

  /** `range(num_qubits)` is empty for a negative count. */
  function Width(numQubits: int): nat {
    if numQubits < 0 then 0 else numQubits
  }

  /** Python list indexing accepts `-n <= index < n`. */
  predicate InRange(index: int, n: nat) {
    -(n as int) <= index < n
  }

  /** The list position a Python index denotes: negative counts from the end. */
  function Slot(index: int, n: nat): (p: nat)
    requires InRange(index, n)
    ensures p < n
  {
    if index < 0 then n + index else index
  }

  predicate AllInRange(rotations: seq<(int, Pauli)>, n: nat) {
    forall k :: 0 <= k < |rotations| ==> InRange(rotations[k].0, n)
  }

  /** The `for index, basis in rotations: joint[index] = basis` loop, left to
      right; the first index out of range raises `IndexError`. */
  function Assign(joint: seq<Pauli>, rotations: seq<(int, Pauli)>): (r: Result<seq<Pauli>, Error>)
    ensures r.Success? ==> |r.value| == |joint|
    decreases |rotations|
  {
    if |rotations| == 0 then Success(joint)
    else if !InRange(rotations[0].0, |joint|) then Failure(IndexOutOfRange(rotations[0].0))
    else Assign(joint[Slot(rotations[0].0, |joint|) := rotations[0].1], rotations[1..])
  }

  /** The loop succeeds exactly when every index is in range; otherwise it
      reports the first index that is not. */
  lemma {:induction false} AssignSucceeds(joint: seq<Pauli>, rotations: seq<(int, Pauli)>)
    ensures Assign(joint, rotations).Success? <==> AllInRange(rotations, |joint|)
    ensures Assign(joint, rotations).Failure? ==>
      exists k :: 0 <= k < |rotations| && !InRange(rotations[k].0, |joint|)
        && Assign(joint, rotations).error == IndexOutOfRange(rotations[k].0)
        && AllInRange(rotations[..k], |joint|)
    decreases |rotations|
  {
    if |rotations| > 0 && InRange(rotations[0].0, |joint|) {
      var rest := rotations[1..];
      var next := joint[Slot(rotations[0].0, |joint|) := rotations[0].1];
      AssignSucceeds(next, rest);
      if AllInRange(rest, |joint|) {
        assert AllInRange(rotations, |joint|) by {
          forall k | 0 <= k < |rotations| ensures InRange(rotations[k].0, |joint|) {
            if k > 0 { assert rotations[k] == rest[k - 1]; }
          }
        }
      } else {
        var k :| 0 <= k < |rest| && !InRange(rest[k].0, |joint|)
          && Assign(next, rest).error == IndexOutOfRange(rest[k].0)
          && AllInRange(rest[..k], |joint|);
        assert rotations[k + 1] == rest[k];
        var before := rotations[..k + 1];
        assert AllInRange(before, |joint|) by {
          forall m | 0 <= m < |before| ensures InRange(before[m].0, |joint|) {
            if m > 0 { assert before[m] == rest[..k][m - 1]; }
          }
        }
      }
    } else if |rotations| > 0 {
      assert rotations[..0] == [];
    }
  }

  /** A position no rotation names keeps what it held. */
  lemma {:induction false} AssignUntouched(joint: seq<Pauli>, rotations: seq<(int, Pauli)>, p: nat)
    requires AllInRange(rotations, |joint|) && p < |joint|
    requires forall k :: 0 <= k < |rotations| ==> Slot(rotations[k].0, |joint|) != p
    ensures Assign(joint, rotations).Success? && Assign(joint, rotations).value[p] == joint[p]
    decreases |rotations|
  {
    AssignSucceeds(joint, rotations);
    if |rotations| > 0 {
      var rest := rotations[1..];
      var next := joint[Slot(rotations[0].0, |joint|) := rotations[0].1];
      assert AllInRange(rest, |joint|) by {
        forall k | 0 <= k < |rest| ensures InRange(rest[k].0, |joint|) { assert rest[k] == rotations[k + 1]; }
      }
      assert forall k :: 0 <= k < |rest| ==> Slot(rest[k].0, |next|) != p by {
        forall k | 0 <= k < |rest| ensures Slot(rest[k].0, |next|) != p { assert rest[k] == rotations[k + 1]; }
      }
      AssignUntouched(next, rest, p);
    }
  }

  /** The last rotation naming a position decides its Pauli. */
  lemma {:induction false} AssignLastWins(joint: seq<Pauli>, rotations: seq<(int, Pauli)>, k: nat)
    requires AllInRange(rotations, |joint|) && k < |rotations|
    requires forall m :: k < m < |rotations| ==> Slot(rotations[m].0, |joint|) != Slot(rotations[k].0, |joint|)
    ensures Assign(joint, rotations).Success?
            && Assign(joint, rotations).value[Slot(rotations[k].0, |joint|)] == rotations[k].1
    decreases |rotations|
  {
    AssignSucceeds(joint, rotations);
    var rest := rotations[1..];
    var next := joint[Slot(rotations[0].0, |joint|) := rotations[0].1];
    assert AllInRange(rest, |joint|) by {
      forall m | 0 <= m < |rest| ensures InRange(rest[m].0, |joint|) { assert rest[m] == rotations[m + 1]; }
    }
    var p := Slot(rotations[k].0, |joint|);
    if k == 0 {
      assert forall m :: 0 <= m < |rest| ==> Slot(rest[m].0, |next|) != p by {
        forall m | 0 <= m < |rest| ensures Slot(rest[m].0, |next|) != p { assert rest[m] == rotations[m + 1]; }
      }
      AssignUntouched(next, rest, p);
    } else {
      assert rest[k - 1] == rotations[k];
      assert forall m :: k - 1 < m < |rest| ==> Slot(rest[m].0, |next|) != Slot(rest[k - 1].0, |next|) by {
        forall m | k - 1 < m < |rest| ensures Slot(rest[m].0, |next|) != Slot(rest[k - 1].0, |next|) {
          assert rest[m] == rotations[m + 1];
        }
      }
      AssignLastWins(next, rest, k - 1);
    }
  }

  /** The identity on every qubit. */
  function Identity(n: nat): (r: seq<Pauli>)
    ensures |r| == n && forall p :: 0 <= p < n ==> r[p] == I
  {
    seq(n, p => I)
  }

  /** `write_instruction`, returning the record instead of writing its line:
      every qubit starts as the identity and each listed qubit takes its basis,
      a later entry for the same qubit winning. */
  function WriteInstruction(
    numQubits: int, rotations: seq<(int, Pauli)>, kind: Kind, angle: Option<int>, cbit: Option<int>, condition: Entries
  ): (r: Result<Record, Error>)
    ensures r.Success? <==> AllInRange(rotations, Width(numQubits))
    ensures r.Failure? ==> exists k :: 0 <= k < |rotations| && r.error == IndexOutOfRange(rotations[k].0)
    ensures r.Success? ==>
      && r.value.kind == kind && r.value.angle == angle && r.value.cbit == cbit
      && r.value.condition == WriteCondition(condition)
      && |r.value.paulis| == Width(numQubits)
  {
    AssignSucceeds(Identity(Width(numQubits)), rotations);
    var joint :- Assign(Identity(Width(numQubits)), rotations);
    Success(Record(kind, angle, joint, cbit, WriteCondition(condition)))
  }

  /** What the written Paulis are: a qubit no rotation names is the identity,
      and a named qubit holds the basis of the last rotation naming it. */
  lemma WriteInstructionPaulis(
    numQubits: int, rotations: seq<(int, Pauli)>, kind: Kind, angle: Option<int>, cbit: Option<int>, condition: Entries
  )
    requires AllInRange(rotations, Width(numQubits))
    ensures var r := WriteInstruction(numQubits, rotations, kind, angle, cbit, condition);
            var n := Width(numQubits);
            && r.Success?
            && (forall p :: 0 <= p < n && (forall k :: 0 <= k < |rotations| ==> Slot(rotations[k].0, n) != p)
                  ==> r.value.paulis[p] == I)
            && (forall k :: 0 <= k < |rotations|
                  && (forall m :: k < m < |rotations| ==> Slot(rotations[m].0, n) != Slot(rotations[k].0, n))
                  ==> r.value.paulis[Slot(rotations[k].0, n)] == rotations[k].1)
  {
    var n := Width(numQubits);
    var joint := Identity(n);
    AssignSucceeds(joint, rotations);
    forall p | 0 <= p < n && (forall k :: 0 <= k < |rotations| ==> Slot(rotations[k].0, n) != p)
      ensures Assign(joint, rotations).value[p] == I
    {
      AssignUntouched(joint, rotations, p);
    }
    forall k | 0 <= k < |rotations|
      && (forall m :: k < m < |rotations| ==> Slot(rotations[m].0, n) != Slot(rotations[k].0, n))
      ensures Assign(joint, rotations).value[Slot(rotations[k].0, n)] == rotations[k].1
    {
      AssignLastWins(joint, rotations, k);
    }
  }

  /** A single basis on one qubit, the identity elsewhere. */
  function OnQubit(n: nat, q: int, basis: Pauli): (r: seq<Pauli>)
    requires InRange(q, n)
    ensures |r| == n && r[Slot(q, n)] == basis
    ensures forall p :: 0 <= p < n && p != Slot(q, n) ==> r[p] == I
  {
    seq(n, p => if p == Slot(q, n) then basis else I)
  }

  lemma WriteOne(numQubits: int, q: int, basis: Pauli, kind: Kind, angle: Option<int>, cbit: Option<int>, condition: Entries)
    requires InRange(q, Width(numQubits))
    ensures WriteInstruction(numQubits, [(q, basis)], kind, angle, cbit, condition)
         == Success(Record(kind, angle, OnQubit(Width(numQubits), q, basis), cbit, WriteCondition(condition)))
  {
    var n := Width(numQubits);
    WriteInstructionPaulis(numQubits, [(q, basis)], kind, angle, cbit, condition);
    var r := WriteInstruction(numQubits, [(q, basis)], kind, angle, cbit, condition).value;
    assert r.paulis == OnQubit(n, q, basis) by {
      forall p | 0 <= p < n ensures r.paulis[p] == OnQubit(n, q, basis)[p] {
        if p != Slot(q, n) {
          assert forall k :: 0 <= k < 1 ==> Slot([(q, basis)][k].0, n) != p;
        }
      }
    }
  }

  // ---------------------------------------------------------------------
  // parse_instruction
  // ---------------------------------------------------------------------

  /** The gates the translator has a branch for. */
  datatype Gate = GateX | GateZ | GateS | GateSdg | GateH | GateT | GateTdg | GateCx | GateMeasure

  /** The QASM name each branch tests for. */
  function GateName(gate: Gate): string {
    match gate
    case GateX => "x"
    case GateZ => "z"
    case GateS => "s"
    case GateSdg => "sdg"
    case GateH => "h"
    case GateT => "t"
    case GateTdg => "tdg"
    case GateCx => "cx"
    case GateMeasure => "measure"
  }

  /** The branch the source's chain of `startswith` tests selects, in its
      order: `s` is tried before `sdg` and `t` before `tdg`. A selected
      branch's name starts the line. */
  function Classify(line: string): (g: Option<Gate>)
    ensures g.Some? ==> StartsWith(line, GateName(g.value))
  {
    if StartsWith(line, "x") then Some(GateX)
    else if StartsWith(line, "z") then Some(GateZ)
    else if StartsWith(line, "s") then Some(GateS)
    else if StartsWith(line, "sdg") then Some(GateSdg)
    else if StartsWith(line, "h") then Some(GateH)
    else if StartsWith(line, "t") then Some(GateT)
    else if StartsWith(line, "tdg") then Some(GateTdg)
    else if StartsWith(line, "cx") then Some(GateCx)
    else if StartsWith(line, "measure") then Some(GateMeasure)
    else None
  }

  /** The records one gate writes, in order. Only the first write of a gate
      can raise: the later ones name only qubits it has already checked, so
      no gate is ever written in part. */
  function Emit(gate: Gate, line: string, numQubits: int, condition: Entries, isIterative: bool): (r: Result<seq<Record>, Error>)
    ensures r.Success? ==> 1 <= |r.value| <= 3
    ensures r.Success? ==> forall j :: 0 <= j < |r.value| ==>
      |r.value[j].paulis| == Width(numQubits) && r.value[j].condition == WriteCondition(condition)
    ensures r.Failure? ==> !r.error.Unsupported?
  {
    match gate
    case GateX => Single(line, numQubits, X, 2, condition, isIterative)
    case GateZ => Single(line, numQubits, Z, 2, condition, isIterative)
    case GateS => Single(line, numQubits, Z, 4, condition, isIterative)
    case GateSdg => Single(line, numQubits, Z, -4, condition, isIterative)
    case GateT => Single(line, numQubits, Z, 8, condition, isIterative)
    case GateTdg => Single(line, numQubits, Z, -8, condition, isIterative)
    case GateH => Hadamard(line, numQubits, condition, isIterative)
    case GateCx => ControlledX(line, numQubits, condition, isIterative)
    case GateMeasure => MeasureLine(line, numQubits, condition, isIterative)
  }

  /** The three pi/4 rotations X, Z, X an `h` becomes. */
  function Hadamard(line: string, numQubits: int, condition: Entries, isIterative: bool)
    : (r: Result<seq<Record>, Error>)
    ensures r.Success? ==> |r.value| == 3
    ensures r.Success? ==> forall j :: 0 <= j < |r.value| ==>
      |r.value[j].paulis| == Width(numQubits) && r.value[j].condition == WriteCondition(condition)
    ensures r.Failure? ==> !r.error.Unsupported?
    ensures r.Success? ==> forall j :: 0 <= j < |r.value| ==> r.value[j].angle == Some(4)
  {
    var index :- GetIndex(line, false, isIterative);
    var first :- WriteInstruction(numQubits, [(index, X)], Rotate, Some(4), None, condition);
    var second := WriteInstruction(numQubits, [(index, Z)], Rotate, Some(4), None, condition).value;
    var third := WriteInstruction(numQubits, [(index, X)], Rotate, Some(4), None, condition).value;
    Success([first, second, third])
  }

  /** The joint pi/4 ZX rotation and the two -pi/4 corrections a `cx` becomes. */
  function ControlledX(line: string, numQubits: int, condition: Entries, isIterative: bool)
    : (r: Result<seq<Record>, Error>)
    ensures r.Success? ==> |r.value| == 3
    ensures r.Success? ==> forall j :: 0 <= j < |r.value| ==>
      |r.value[j].paulis| == Width(numQubits) && r.value[j].condition == WriteCondition(condition)
    ensures r.Failure? ==> !r.error.Unsupported?
    ensures r.Success? ==> r.value[0].angle == Some(4) && r.value[1].angle == Some(-4) && r.value[2].angle == Some(-4)
  {
    var qubits := Split(Mid(line, 3, 2), ",");
    var control :- GetIndex(qubits[0], false, isIterative);
    if |qubits| < 2 then Failure(MissingOperand(line))
    else
      var target :- GetIndex(qubits[1], false, isIterative);
      var joint :- WriteInstruction(numQubits, [(control, Z), (target, X)], Rotate, Some(4), None, condition);
      assert InRange([(control, Z), (target, X)][0].0, Width(numQubits));
      assert InRange([(control, Z), (target, X)][1].0, Width(numQubits));
      var onControl := WriteInstruction(numQubits, [(control, Z)], Rotate, Some(-4), None, condition).value;
      var onTarget := WriteInstruction(numQubits, [(target, X)], Rotate, Some(-4), None, condition).value;
      Success([joint, onControl, onTarget])
  }

  /** The one measurement record a `measure q -> c` line becomes. */
  function MeasureLine(line: string, numQubits: int, condition: Entries, isIterative: bool)
    : (r: Result<seq<Record>, Error>)
    ensures r.Success? ==> |r.value| == 1
    ensures r.Success? ==> forall j :: 0 <= j < |r.value| ==>
      |r.value[j].paulis| == Width(numQubits) && r.value[j].condition == WriteCondition(condition)
    ensures r.Failure? ==> !r.error.Unsupported?
    ensures r.Success? ==> r.value[0].angle == None && r.value[0].kind == Measure
  {
    var parts := Split(line, " -> ");
    if |parts| != 2 then Failure(MalformedMeasure(line))
    else
      var qindex :- GetIndex(parts[0], false, isIterative);
      var cindex :- GetIndex(parts[1], true, isIterative);
      var m :- WriteInstruction(numQubits, [(qindex, Z)], Measure, None, Some(cindex), condition);
      Success([m])
  }

  /** One rotation by pi/`angle` about `basis` on the line's qubit. */
  function Single(line: string, numQubits: int, basis: Pauli, angle: int, condition: Entries, isIterative: bool)
    : (r: Result<seq<Record>, Error>)
    ensures r.Success? ==> |r.value| == 1 && |r.value[0].paulis| == Width(numQubits)
                           && r.value[0].condition == WriteCondition(condition)
                           && r.value[0].angle == Some(angle)
    ensures r.Failure? ==> !r.error.Unsupported?
  {
    var index :- GetIndex(line, false, isIterative);
    var w :- WriteInstruction(numQubits, [(index, basis)], Rotate, Some(angle), None, condition);
    Success([w])
  }

  /** `parse_instruction` as written: the records the line becomes, or the
      exception it raises. */
  function ParseInstruction(line: string, numQubits: int, condition: Entries, isIterative: bool)
    : (r: Result<seq<Record>, Error>)
    ensures Classify(line).None? <==> r == Failure(Unsupported(line))
    ensures r.Success? ==> 1 <= |r.value| <= 3
    ensures r.Success? ==> forall j :: 0 <= j < |r.value| ==>
      |r.value[j].paulis| == Width(numQubits) && r.value[j].condition == WriteCondition(condition)
  {
    match Classify(line)
    case None => Failure(Unsupported(line))
    case Some(gate) => Emit(gate, line, numQubits, condition, isIterative)
  }

  // ---------------------------------------------------------------------
  // What each gate becomes
  // ---------------------------------------------------------------------

  /** The rotation angle of a single-qubit gate's one record. */
  function SingleAngle(gate: Gate): int {
    match gate
    case GateX => 2
    case GateZ => 2
    case GateS => 4
    case GateSdg => -4
    case GateT => 8
    case GateTdg => -8
    case _ => 0
  }

  function SingleBasis(gate: Gate): Pauli {
    if gate == GateX then X else Z
  }

  predicate IsSingleQubitGate(gate: Gate) {
    gate in {GateX, GateZ, GateS, GateSdg, GateT, GateTdg}
  }

  /** `x`, `z`, `s` and `t` lines (and `sdg`, `tdg` where reached): one
      rotation on the named qubit, X for `x` and Z otherwise, by pi/2 for
      `x` and `z`, pi/4 for `s`, pi/8 for `t`. */
  lemma SingleQubitGateRecord(gate: Gate, line: string, numQubits: int, condition: Entries, isIterative: bool)
    requires IsSingleQubitGate(gate)
    ensures var r := Emit(gate, line, numQubits, condition, isIterative);
            var index := GetIndex(line, false, isIterative);
            r.Success? <==> index.Success? && InRange(index.value, Width(numQubits))
    ensures var r := Emit(gate, line, numQubits, condition, isIterative);
            var index := GetIndex(line, false, isIterative);
            r.Success? ==> r.value == [Record(Rotate, Some(SingleAngle(gate)),
              OnQubit(Width(numQubits), index.value, SingleBasis(gate)), None, WriteCondition(condition))]
  {
    var index := GetIndex(line, false, isIterative);
    if index.Success? && InRange(index.value, Width(numQubits)) {
      WriteOne(numQubits, index.value, SingleBasis(gate), Rotate, Some(SingleAngle(gate)), None, condition);
    }
  }

  /** An `h` line: three pi/4 rotations on the named qubit, X, Z, X, with the
      same condition. */
  lemma HadamardRecords(line: string, numQubits: int, condition: Entries, isIterative: bool)
    ensures var r := Emit(GateH, line, numQubits, condition, isIterative);
            var index := GetIndex(line, false, isIterative);
            r.Success? <==> index.Success? && InRange(index.value, Width(numQubits))
    ensures var r := Emit(GateH, line, numQubits, condition, isIterative);
            var index := GetIndex(line, false, isIterative);
            var n := Width(numQubits);
            var cond := WriteCondition(condition);
            r.Success? ==> r.value == [
              Record(Rotate, Some(4), OnQubit(n, index.value, X), None, cond),
              Record(Rotate, Some(4), OnQubit(n, index.value, Z), None, cond),
              Record(Rotate, Some(4), OnQubit(n, index.value, X), None, cond)]
  {
    var index := GetIndex(line, false, isIterative);
    if index.Success? && InRange(index.value, Width(numQubits)) {
      WriteOne(numQubits, index.value, X, Rotate, Some(4), None, condition);
      WriteOne(numQubits, index.value, Z, Rotate, Some(4), None, condition);
    }
  }

  /** The Paulis of the joint ZX rotation of a `cx`: Z on the control, X on
      the target (X alone when both name the same qubit, the later write). */
  function ControlTarget(n: nat, control: int, target: int): (r: seq<Pauli>)
    requires InRange(control, n) && InRange(target, n)
    ensures |r| == n && r[Slot(target, n)] == X
    ensures Slot(control, n) != Slot(target, n) ==> r[Slot(control, n)] == Z
    ensures forall p :: 0 <= p < n && p != Slot(control, n) && p != Slot(target, n) ==> r[p] == I
  {
    seq(n, p => if p == Slot(target, n) then X else if p == Slot(control, n) then Z else I)
  }

  /** A `cx` line succeeds exactly when it names two operands that both
      parse and are in range. */
  lemma CxSucceeds(line: string, numQubits: int, condition: Entries, isIterative: bool)
    ensures var qubits := Split(Mid(line, 3, 2), ",");
            var n := Width(numQubits);
            ControlledX(line, numQubits, condition, isIterative).Success? <==>
              && |qubits| >= 2
              && var control := GetIndex(qubits[0], false, isIterative);
                 var target := GetIndex(qubits[1], false, isIterative);
                 && control.Success? && target.Success?
                 && InRange(control.value, n) && InRange(target.value, n)
  {
    var qubits := Split(Mid(line, 3, 2), ",");
    var n := Width(numQubits);
    if |qubits| >= 2 && GetIndex(qubits[0], false, isIterative).Success?
       && GetIndex(qubits[1], false, isIterative).Success?
       && InRange(GetIndex(qubits[0], false, isIterative).value, n)
       && InRange(GetIndex(qubits[1], false, isIterative).value, n)
    {
      var rotations := [(GetIndex(qubits[0], false, isIterative).value, Z),
                        (GetIndex(qubits[1], false, isIterative).value, X)];
      assert AllInRange(rotations, n);
    }
  }

  /** A `cx` line `cx a,b;` (the slice drops `cx ` and the last two
      characters): three records, the joint pi/4 ZX rotation, then -pi/4 Z on
      the control and -pi/4 X on the target. */
  lemma CxRecords(line: string, numQubits: int, condition: Entries, isIterative: bool)
    ensures var r := Emit(GateCx, line, numQubits, condition, isIterative);
            var qubits := Split(Mid(line, 3, 2), ",");
            var n := Width(numQubits);
            r.Success? <==>
              && |qubits| >= 2
              && var control := GetIndex(qubits[0], false, isIterative);
                 var target := GetIndex(qubits[1], false, isIterative);
                 && control.Success? && target.Success?
                 && InRange(control.value, n) && InRange(target.value, n)
    ensures var r := Emit(GateCx, line, numQubits, condition, isIterative);
            var qubits := Split(Mid(line, 3, 2), ",");
            var n := Width(numQubits);
            var cond := WriteCondition(condition);
            r.Success? ==>
              && |qubits| >= 2
              && var control := GetIndex(qubits[0], false, isIterative);
                 var target := GetIndex(qubits[1], false, isIterative);
                 && control.Success? && target.Success?
                 && InRange(control.value, n) && InRange(target.value, n)
                 && r.value == [
                      Record(Rotate, Some(4), ControlTarget(n, control.value, target.value), None, cond),
                      Record(Rotate, Some(-4), OnQubit(n, control.value, Z), None, cond),
                      Record(Rotate, Some(-4), OnQubit(n, target.value, X), None, cond)]
  {
    CxSucceeds(line, numQubits, condition, isIterative);
    var r := Emit(GateCx, line, numQubits, condition, isIterative);
    var qubits := Split(Mid(line, 3, 2), ",");
    var n := Width(numQubits);
    if r.Success? {
      var control := GetIndex(qubits[0], false, isIterative).value;
      var target := GetIndex(qubits[1], false, isIterative).value;
      CxJoint(numQubits, control, target, condition);
      WriteOne(numQubits, control, Z, Rotate, Some(-4), None, condition);
      WriteOne(numQubits, target, X, Rotate, Some(-4), None, condition);
    }
  }

  /** The joint record of a `cx`: Z on the control and X on the target. */
  lemma CxJoint(numQubits: int, control: int, target: int, condition: Entries)
    requires InRange(control, Width(numQubits)) && InRange(target, Width(numQubits))
    ensures WriteInstruction(numQubits, [(control, Z), (target, X)], Rotate, Some(4), None, condition)
         == Success(Record(Rotate, Some(4), ControlTarget(Width(numQubits), control, target), None,
                           WriteCondition(condition)))
  {
    var n := Width(numQubits);
    var rotations := [(control, Z), (target, X)];
    assert AllInRange(rotations, n);
    WriteInstructionPaulis(numQubits, rotations, Rotate, Some(4), None, condition);
    var joint := WriteInstruction(numQubits, rotations, Rotate, Some(4), None, condition).value;
    assert joint.paulis == ControlTarget(n, control, target) by {
      forall p | 0 <= p < n ensures joint.paulis[p] == ControlTarget(n, control, target)[p] {
        if p == Slot(target, n) {
          assert Slot(rotations[1].0, n) == p;
        } else if p == Slot(control, n) {
          assert Slot(rotations[0].0, n) == p;
        } else {
          assert forall k :: 0 <= k < 2 ==> Slot(rotations[k].0, n) != p;
        }
      }
    }
  }

  /** A `measure q -> c` line: one measurement record, Z on the measured
      qubit, with the classical target's index; a line that does not split
      into exactly two parts around ` -> ` raises. */
  lemma MeasureRecord(line: string, numQubits: int, condition: Entries, isIterative: bool)
    ensures var r := Emit(GateMeasure, line, numQubits, condition, isIterative);
            var parts := Split(line, " -> ");
            |parts| != 2 ==> r == Failure(MalformedMeasure(line))
    ensures var r := Emit(GateMeasure, line, numQubits, condition, isIterative);
            var parts := Split(line, " -> ");
            r.Success? <==>
              && |parts| == 2
              && var q := GetIndex(parts[0], false, isIterative);
                 var c := GetIndex(parts[1], true, isIterative);
                 && q.Success? && c.Success? && InRange(q.value, Width(numQubits))
    ensures var r := Emit(GateMeasure, line, numQubits, condition, isIterative);
            var parts := Split(line, " -> ");
            r.Success? ==>
              && |parts| == 2
              && var q := GetIndex(parts[0], false, isIterative);
                 var c := GetIndex(parts[1], true, isIterative);
                 && q.Success? && c.Success? && InRange(q.value, Width(numQubits))
                 && r.value == [Record(Measure, None, OnQubit(Width(numQubits), q.value, Z), Some(c.value),
                                       WriteCondition(condition))]
  {
    var parts := Split(line, " -> ");
    var r := Emit(GateMeasure, line, numQubits, condition, isIterative);
    if |parts| == 2 && GetIndex(parts[0], false, isIterative).Success?
       && GetIndex(parts[1], true, isIterative).Success?
       && InRange(GetIndex(parts[0], false, isIterative).value, Width(numQubits))
    {
      assert AllInRange([(GetIndex(parts[0], false, isIterative).value, Z)], Width(numQubits));
    }
    if r.Success? {
      WriteOne(numQubits, GetIndex(parts[0], false, isIterative).value, Z, Measure, None,
               Some(GetIndex(parts[1], true, isIterative).value), condition);
    }
  }

  // ---------------------------------------------------------------------
  // The order of the prefix tests
  // ---------------------------------------------------------------------

  lemma PrefixOfPrefix(line: string, longer: string, shorter: string)
    requires StartsWith(line, longer) && StartsWith(longer, shorter)
    ensures StartsWith(line, shorter)
  {
    assert line[..|shorter|] == line[..|longer|][..|shorter|];
  }

  /** As written, the `sdg` and `tdg` branches are never taken: such lines
      start with `s` or `t` and are caught by the earlier test. */
  lemma InverseBranchesUnreachable(line: string)
    ensures Classify(line) != Some(GateSdg) && Classify(line) != Some(GateTdg)
    ensures StartsWith(line, "sdg") ==> Classify(line) == Some(GateS)
    ensures StartsWith(line, "tdg") ==> Classify(line) == Some(GateT)
  {
    if StartsWith(line, "sdg") { PrefixOfPrefix(line, "sdg", "s"); }
    if StartsWith(line, "tdg") { PrefixOfPrefix(line, "tdg", "t"); }
  }

  /** A line is unsupported exactly when no gate name starts it. */
  lemma ClassifyNoneIffNoName(line: string)
    ensures Classify(line).None? <==> forall gate: Gate :: !StartsWith(line, GateName(gate))
  {
    InverseBranchesUnreachable(line);
    if Classify(line).None? {
      assert forall gate: Gate :: !StartsWith(line, GateName(gate));
    }
  }

  /** No record of a successful result has angle -8 (a -pi/8 rotation). */
  predicate NoMinusEighth(r: Result<seq<Record>, Error>) {
    r.Success? ==> forall j :: 0 <= j < |r.value| ==> r.value[j].angle != Some(-8)
  }

  /** Consequently no record the source writes ever has angle -8. */
  lemma NoMinusEighthTurn(line: string, numQubits: int, condition: Entries, isIterative: bool)
    ensures var r := ParseInstruction(line, numQubits, condition, isIterative);
            r.Success? ==> forall j :: 0 <= j < |r.value| ==> r.value[j].angle != Some(-8)
  {
    InverseBranchesUnreachable(line);
    if Classify(line).Some? {
      var gate := Classify(line).value;
      assert ParseInstruction(line, numQubits, condition, isIterative) == Emit(gate, line, numQubits, condition, isIterative);
      EmitAngles(gate, line, numQubits, condition, isIterative);
    }
  }

  /** The angle of every record a gate other than `tdg` writes. */
  lemma EmitAngles(gate: Gate, line: string, numQubits: int, condition: Entries, isIterative: bool)
    requires gate != GateTdg
    ensures NoMinusEighth(Emit(gate, line, numQubits, condition, isIterative))
  {
    if IsSingleQubitGate(gate) {
      SingleAngleNotMinusEighth(gate, line, numQubits, condition, isIterative);
    } else {
      MultiAnglesNotMinusEighth(gate, line, numQubits, condition, isIterative);
    }
  }

  lemma SingleAngleNotMinusEighth(gate: Gate, line: string, numQubits: int, condition: Entries, isIterative: bool)
    requires IsSingleQubitGate(gate) && gate != GateTdg
    ensures NoMinusEighth(Emit(gate, line, numQubits, condition, isIterative))
  {
    SingleQubitGateRecord(gate, line, numQubits, condition, isIterative);
  }

  lemma MultiAnglesNotMinusEighth(gate: Gate, line: string, numQubits: int, condition: Entries, isIterative: bool)
    requires !IsSingleQubitGate(gate)
    ensures NoMinusEighth(Emit(gate, line, numQubits, condition, isIterative))
  {
    match gate
    case GateH => HadamardRecords(line, numQubits, condition, isIterative);
    case GateCx => CxRecords(line, numQubits, condition, isIterative);
    case GateMeasure => MeasureRecord(line, numQubits, condition, isIterative);
  }

  /** An `sdg` line is written exactly as an `s` would be: pi/4, not -pi/4. */
  lemma SdgReadAsS(line: string, numQubits: int, condition: Entries, isIterative: bool)
    requires StartsWith(line, "sdg")
    ensures ParseInstruction(line, numQubits, condition, isIterative) == Single(line, numQubits, Z, 4, condition, isIterative)
  {
    InverseBranchesUnreachable(line);
    assert ParseInstruction(line, numQubits, condition, isIterative) == Emit(GateS, line, numQubits, condition, isIterative);
  }

  /** A `tdg` line is written exactly as a `t` would be: pi/8, not -pi/8. */
  lemma TdgReadAsT(line: string, numQubits: int, condition: Entries, isIterative: bool)
    requires StartsWith(line, "tdg")
    ensures ParseInstruction(line, numQubits, condition, isIterative) == Single(line, numQubits, Z, 8, condition, isIterative)
  {
    InverseBranchesUnreachable(line);
    assert ParseInstruction(line, numQubits, condition, isIterative) == Emit(GateT, line, numQubits, condition, isIterative);
  }

  /** The prefix chain with the longer names tried first, so that `sdg` and
      `tdg` reach their own branches. */
  function ClassifyCorrected(line: string): (g: Option<Gate>)
    ensures StartsWith(line, "sdg") ==> g == Some(GateSdg)
    ensures StartsWith(line, "tdg") ==> g == Some(GateTdg)
  {
    if StartsWith(line, "sdg") then Some(GateSdg)
    else if StartsWith(line, "tdg") then Some(GateTdg)
    else Classify(line)
  }

  /** `parse_instruction` with `sdg` and `tdg` tried before `s` and `t`. */
  function ParseInstructionCorrected(line: string, numQubits: int, condition: Entries, isIterative: bool)
    : (r: Result<seq<Record>, Error>)
    ensures ClassifyCorrected(line).None? <==> r == Failure(Unsupported(line))
  {
    match ClassifyCorrected(line)
    case None => Failure(Unsupported(line))
    case Some(gate) => Emit(gate, line, numQubits, condition, isIterative)
  }

  /** The corrected chain writes `sdg` as a -pi/4 and `tdg` as a -pi/8 Z
      rotation, and treats every other line exactly as the source does. */
  lemma CorrectedInverseGates(line: string, numQubits: int, condition: Entries, isIterative: bool)
    ensures var r := ParseInstructionCorrected(line, numQubits, condition, isIterative);
            var index := GetIndex(line, false, isIterative);
            var n := Width(numQubits);
            StartsWith(line, "sdg") && r.Success? ==>
              r.value == [Record(Rotate, Some(-4), OnQubit(n, index.value, Z), None, WriteCondition(condition))]
    ensures var r := ParseInstructionCorrected(line, numQubits, condition, isIterative);
            var index := GetIndex(line, false, isIterative);
            var n := Width(numQubits);
            StartsWith(line, "tdg") && r.Success? ==>
              r.value == [Record(Rotate, Some(-8), OnQubit(n, index.value, Z), None, WriteCondition(condition))]
    ensures !StartsWith(line, "sdg") && !StartsWith(line, "tdg") ==>
      ParseInstructionCorrected(line, numQubits, condition, isIterative)
        == ParseInstruction(line, numQubits, condition, isIterative)
  {
    if StartsWith(line, "sdg") {
      SingleQubitGateRecord(GateSdg, line, numQubits, condition, isIterative);
    } else if StartsWith(line, "tdg") {
      SingleQubitGateRecord(GateTdg, line, numQubits, condition, isIterative);
    }
  }

  // ---------------------------------------------------------------------
  // Worked examples
  // ---------------------------------------------------------------------

  /** `x q[2];` on three qubits: X on the last qubit, pi/2. */
  lemma XOnThirdQubit(line: string, numQubits: int)
    requires line == "x q[2];" && numQubits == 3
    ensures ParseInstruction(line, numQubits, [], false) == Success([Record(Rotate, Some(2), [I, I, X], None, "")])
  {
    assert ParseInstruction(line, numQubits, [], false) == Emit(GateX, line, numQubits, [], false) by {
      assert Classify(line) == Some(GateX) by { assert line[..1] == "x"; }
    }
    assert GetIndex(line, false, false) == Success(2) by {
      assert line == "x q" + "[" + IntToString(2) + "]" + ";" by { assert IntToString(2) == "2"; }
      GetIndexOfRegister("x q", 2, ";", false, false);
    }
    assert OnQubit(numQubits, 2, X) == [I, I, X];
    assert WriteCondition([]) == "" by { assert Clauses([]) == []; }
    SingleQubitGateRecord(GateX, line, numQubits, [], false);
  }

  /** `sdg q[0];` is written as an `s`: pi/4, not -pi/4. */
  lemma SdgWrittenAsS()
    ensures ParseInstruction("sdg q[0];", 1, [], false) == Success([Record(Rotate, Some(4), [Z], None, "")])
    ensures ParseInstructionCorrected("sdg q[0];", 1, [], false) == Success([Record(Rotate, Some(-4), [Z], None, "")])
  {
    var line := "sdg q[0];";
    assert StartsWith(line, "sdg") by { assert line[..3] == "sdg"; }
    InverseBranchesUnreachable(line);
    assert GetIndex(line, false, false) == Success(0) by {
      assert line == "sdg q" + "[" + IntToString(0) + "]" + ";" by { assert IntToString(0) == "0"; }
      GetIndexOfRegister("sdg q", 0, ";", false, false);
    }
    SingleQubitGateRecord(GateS, line, 1, [], false);
    SingleQubitGateRecord(GateSdg, line, 1, [], false);
    assert OnQubit(1, 0, Z) == [Z];
    assert WriteCondition([]) == "" by { assert Clauses([]) == []; }
  }
}
