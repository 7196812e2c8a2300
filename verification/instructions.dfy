/** The instruction model shared by the commutation engine: a Pauli-product
    rotation or measurement, with its classical condition set. */
module Instructions {
  import opened Pauli

  /** Classical conditions: bit index to required value. The empty map is
      "unconditional"; an instruction is active when every entry holds. */
  type Conditions = map<int, int>

  datatype Kind = Rotate | Measure

  /** One record `(instruction, angle, bases, cbit, conditions)`. The angle is
      the integer `n` of a rotation by pi/n (a measurement carries the value 1
      its reader gives an empty angle field); `cbit` is the classical-target
      field, carried through unchanged. */
  datatype Instruction = Instruction(
    kind: Kind,
    angle: int,
    paulis: seq<Pauli>,
    cbit: string,
    conditions: Conditions)

  function Abs(n: int): nat {
    if n < 0 then -n else n
  }

  function Min(a: nat, b: nat): nat {
    if a <= b then a else b
  }

  /** The engine's test for a Clifford: a rotation with `2 <= |n| <= 4`
      (pi/2 and pi/4 rotations). */
  predicate IsClifford(ins: Instruction) {
    ins.kind == Rotate && 2 <= Abs(ins.angle) <= 4
  }

  predicate NoClifford(rs: seq<Instruction>) {
    forall i :: 0 <= i < |rs| ==> !IsClifford(rs[i])
  }

  function CountClifford(rs: seq<Instruction>): nat
    decreases |rs|
  {
    if |rs| == 0 then 0 else CountClifford(rs[1..]) + (if IsClifford(rs[0]) then 1 else 0)
  }

  function CountNonClifford(rs: seq<Instruction>): nat
    decreases |rs|
  {
    if |rs| == 0 then 0 else CountNonClifford(rs[1..]) + (if IsClifford(rs[0]) then 0 else 1)
  }

  function Pow2(n: nat): nat
    decreases n
  {
    if n == 0 then 1 else 2 * Pow2(n - 1)
  }

  /** A classical-bit assignment satisfies a condition set. */
  ghost predicate Holds(bits: int -> int, c: Conditions) {
    forall k :: k in c ==> bits(k) == c[k]
  }
}
