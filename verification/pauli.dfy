/** Single-qubit Pauli algebra: the fixed sixteen-entry table that says what
    happens to a Pauli `b` when a Pauli `a` is commuted past it. */
module Pauli {

  datatype Pauli = I | X | Y | Z

  /** One table entry: whether the pair commutes, the sign picked up, and
      what the second Pauli becomes. */
  datatype Rule = Rule(commutes: bool, phase: int, result: Pauli)

  /** Successor in the cyclic order X -> Y -> Z -> X (identity has none). */
  function Next(p: Pauli): Pauli {
    match p
    case I => I
    case X => Y
    case Y => Z
    case Z => X
  }

  /** The non-identity Pauli different from both `a` and `b`. */
  function Third(a: Pauli, b: Pauli): (c: Pauli)
    requires a != I && b != I && a != b
    ensures c != I && c != a && c != b
  {
    if a != X && b != X then X else if a != Y && b != Y then Y else Z
  }

  /** The commutation table. A pair involving the identity, or two equal
      Paulis, commutes with sign +1, and the result is the non-identity member
      of the pair (so `(X, I)` gives `X`, not the second Pauli `I`). Two distinct
      non-identity Paulis anticommute, the result is the third Pauli, and the
      sign is -1 exactly when the pair follows the cyclic order X -> Y -> Z -> X. */
  function CommutingRule(a: Pauli, b: Pauli): (r: Rule)
    ensures r.commutes <==> (a == I || b == I || a == b)
    ensures r.commutes ==> r.phase == 1 && r.result == (if b == I then a else b)
    ensures !r.commutes ==> r.result == Third(a, b)
    ensures !r.commutes ==> (r.phase == -1 <==> b == Next(a))
    ensures r.phase == 1 || r.phase == -1
  {
    match (a, b)
    case (I, I) => Rule(true, 1, I)
    case (I, X) => Rule(true, 1, X)
    case (I, Y) => Rule(true, 1, Y)
    case (I, Z) => Rule(true, 1, Z)
    case (X, I) => Rule(true, 1, X)
    case (X, X) => Rule(true, 1, X)
    case (X, Y) => Rule(false, -1, Z)
    case (X, Z) => Rule(false, 1, Y)
    case (Y, I) => Rule(true, 1, Y)
    case (Y, X) => Rule(false, 1, Z)
    case (Y, Y) => Rule(true, 1, Y)
    case (Y, Z) => Rule(false, -1, X)
    case (Z, I) => Rule(true, 1, Z)
    case (Z, X) => Rule(false, -1, Y)
    case (Z, Y) => Rule(false, 1, X)
    case (Z, Z) => Rule(true, 1, Z)
  }

  /** Swapping an anticommuting pair flips the sign but not the resulting Pauli. */
  lemma RuleAntisymmetric(a: Pauli, b: Pauli)
    requires !CommutingRule(a, b).commutes
    ensures !CommutingRule(b, a).commutes
    ensures CommutingRule(b, a).phase == -CommutingRule(a, b).phase
    ensures CommutingRule(b, a).result == CommutingRule(a, b).result
  {
  }

  /** For an anticommuting pair, commuting `a` past `b` twice (a quarter turn
      applied twice, i.e. a half turn) restores `b` with overall sign -1: the
      sign flip the engine applies directly for a pi/2 rotation. */
  lemma RuleTwiceIsHalfTurn(a: Pauli, b: Pauli)
    requires !CommutingRule(a, b).commutes
    ensures var once := CommutingRule(a, b);
            var twice := CommutingRule(a, once.result);
            twice.result == b && !twice.commutes && once.phase * twice.phase == -1
  {
  }
}
