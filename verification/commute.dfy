/** The commutation engine: pushes every Clifford rotation past the rest of
    the circuit, rewriting what it passes, until only non-Clifford rotations
    and measurements remain. */
module Commute {
  import opened Pauli
  import opened Instructions

  /** One rewrite of the instruction being passed: multiply its angle by
      `phase`, replace its Paulis, and merge `extra` into its conditions. */
  datatype Update = Update(phase: int, paulis: seq<Pauli>, extra: Conditions)

  // ---------------------------------------------------------------------
  // Condition tests
  // ---------------------------------------------------------------------

  /** Some bit is required to hold different values by the two sets. */
  predicate Contradicts(first: Conditions, second: Conditions) {
    exists bit :: bit in first && bit in second && second[bit] != first[bit]
  }

  /** Every entry of `first` is also an entry of `second` (items subset). */
  predicate ImpliedBy(first: Conditions, second: Conditions) {
    forall bit :: bit in first ==> bit in second && second[bit] == first[bit]
  }

  /** The Clifford's guard is not already implied, so both outcomes are kept. */
  predicate Branches(first: Conditions, second: Conditions) {
    |first| > 0 && !ImpliedBy(first, second)
  }

  /** Two guards that contradict each other are never implied one by the
      other. */
  lemma ContradictingGuardsNotImplied(first: Conditions, second: Conditions)
    requires Contradicts(first, second)
    ensures |first| > 0 && !ImpliedBy(first, second) && !ImpliedBy(second, first)
  {
  }

  /** The guard branches exactly when some bit it constrains is either free
      in the other guard or required to differ there. */
  lemma BranchesIff(first: Conditions, second: Conditions)
    ensures Branches(first, second) <==>
              (Contradicts(first, second) || exists bit :: bit in first && bit !in second)
  {
  }

  /** Every required value complemented, `(v + 1) % 2`. */
  function Negated(c: Conditions): (r: Conditions)
    ensures r.Keys == c.Keys
    ensures forall bit :: bit in c ==> r[bit] == (c[bit] + 1) % 2
  {
    map bit | bit in c :: (c[bit] + 1) % 2
  }

  // ---------------------------------------------------------------------
  // The per-qubit fold over zip(first, second), as the source runs it
  // ---------------------------------------------------------------------

  /** `commute ^= not rule.commutes` over the first `n` zipped positions.
      Positions that all commute leave the products commuting. */
  function CommuteFold(first: seq<Pauli>, second: seq<Pauli>, n: nat): (r: bool)
    requires n <= |first| && n <= |second|
    ensures (forall q :: 0 <= q < n ==> CommutingRule(first[q], second[q]).commutes) ==> r
    decreases n
  {
    if n == 0 then true
    else CommuteFold(first, second, n - 1) != !CommutingRule(first[n - 1], second[n - 1]).commutes
  }

  /** `phase *= rule.phase` over the first `n` zipped positions. */
  function PhaseFold(first: seq<Pauli>, second: seq<Pauli>, n: nat): (p: int)
    requires n <= |first| && n <= |second|
    ensures p == 1 || p == -1
    decreases n
  {
    if n == 0 then 1
    else PhaseFold(first, second, n - 1) * CommutingRule(first[n - 1], second[n - 1]).phase
  }

  /** `commuted_paulis.append(rule.result)` over the first `n` zipped positions. */
  function ConjugatedPaulis(first: seq<Pauli>, second: seq<Pauli>, n: nat): (ps: seq<Pauli>)
    requires n <= |first| && n <= |second|
    ensures |ps| == n
    ensures forall q :: 0 <= q < n ==> ps[q] == CommutingRule(first[q], second[q]).result
    decreases n
  {
    if n == 0 then [] else ConjugatedPaulis(first, second, n - 1) + [CommutingRule(first[n - 1], second[n - 1]).result]
  }

  // Reference counts the folds are measured against.

  /** Number of the first `n` positions whose Paulis anticommute. */
  function AnticommutingCount(first: seq<Pauli>, second: seq<Pauli>, n: nat): nat
    requires n <= |first| && n <= |second|
    decreases n
  {
    if n == 0 then 0
    else
      AnticommutingCount(first, second, n - 1)
      + (if first[n - 1] != I && second[n - 1] != I && first[n - 1] != second[n - 1] then 1 else 0)
  }

  /** Number of the first `n` positions where the second Pauli follows the
      first in the cyclic order X -> Y -> Z -> X. */
  function CyclicCount(first: seq<Pauli>, second: seq<Pauli>, n: nat): nat
    requires n <= |first| && n <= |second|
    decreases n
  {
    if n == 0 then 0
    else CyclicCount(first, second, n - 1) + (if first[n - 1] != I && second[n - 1] == Next(first[n - 1]) then 1 else 0)
  }

  function ParitySign(k: nat): int {
    if k % 2 == 0 then 1 else -1
  }

  /** Joint Pauli products commute exactly when an even number of positions
      anticommute: the XOR fold computes that parity. */
  lemma {:induction false} CommuteFoldIsParity(first: seq<Pauli>, second: seq<Pauli>, n: nat)
    requires n <= |first| && n <= |second|
    ensures CommuteFold(first, second, n) <==> AnticommutingCount(first, second, n) % 2 == 0
    decreases n
  {
    if n > 0 {
      CommuteFoldIsParity(first, second, n - 1);
    }
  }

  /** The product of the table signs is -1 exactly when an odd number of
      positions follow the cyclic order. */
  lemma {:induction false} PhaseFoldIsCyclicParity(first: seq<Pauli>, second: seq<Pauli>, n: nat)
    requires n <= |first| && n <= |second|
    ensures PhaseFold(first, second, n) == ParitySign(CyclicCount(first, second, n))
    decreases n
  {
    if n > 0 {
      PhaseFoldIsCyclicParity(first, second, n - 1);
      var a, b := first[n - 1], second[n - 1];
      assert CommutingRule(a, b).phase == -1 <==> (a != I && b == Next(a));
    }
  }

  // ---------------------------------------------------------------------
  // The pairwise rule
  // ---------------------------------------------------------------------

  /** `commuted_pauli_rotations`: how the instruction with Paulis `second` and
      conditions `secondC` is rewritten when a Clifford rotation by pi/`angle`
      with Paulis `first` and conditions `firstC` is moved past it. The first
      update is the one in force when the Clifford fired; a second update, if
      present, is the instruction unchanged under the complemented guard. */
  function CommutedPauliRotations(
    angle: int, first: seq<Pauli>, second: seq<Pauli>, firstC: Conditions, secondC: Conditions
  ): (r: seq<Update>)
    ensures 1 <= |r| <= 2
    ensures forall j :: 0 <= j < |r| ==> r[j].phase == 1 || r[j].phase == -1
    // Mutually exclusive guards, or an even number of anticommuting
    // positions: the instruction is left as it is.
    ensures Contradicts(firstC, secondC)
            || AnticommutingCount(first, second, Min(|first|, |second|)) % 2 == 0
            ==> r == [Update(1, second, map[])]
    // Otherwise they anticommute.
    ensures !Contradicts(firstC, secondC)
            && AnticommutingCount(first, second, Min(|first|, |second|)) % 2 == 1
            ==> && (|r| == 2 <==> Branches(firstC, secondC))
                && r[0].extra == (if Branches(firstC, secondC) then firstC else map[])
                && (|r| == 2 ==> r[1] == Update(1, second, Negated(firstC)))
                && (Abs(angle) == 2 ==> r[0].phase == -1 && forall j :: 0 <= j < |r| ==> r[j].paulis == second)
                && (Abs(angle) != 2 ==>
                      && r[0].phase == (if angle > 0 then 1 else -1) * ParitySign(CyclicCount(first, second, Min(|first|, |second|)))
                      && |r[0].paulis| == Min(|first|, |second|)
                      && forall q :: 0 <= q < |r[0].paulis| ==> r[0].paulis[q] == CommutingRule(first[q], second[q]).result)
  {
    var n := Min(|first|, |second|);
    CommuteFoldIsParity(first, second, n);
    PhaseFoldIsCyclicParity(first, second, n);
    var sign := if angle > 0 then 1 else -1;
    if Contradicts(firstC, secondC) then
      [Update(1, second, map[])]
    else if CommuteFold(first, second, n) then
      [Update(1, second, map[])]
    else if Abs(angle) == 2 then
      if Branches(firstC, secondC) then
        [Update(-1, second, firstC), Update(1, second, Negated(firstC))]
      else
        [Update(-1, second, map[])]
    else
      var phase := sign * PhaseFold(first, second, n);
      var commuted := ConjugatedPaulis(first, second, n);
      if Branches(firstC, secondC) then
        [Update(phase, commuted, firstC), Update(1, second, Negated(firstC))]
      else
        [Update(phase, commuted, map[])]
  }

  // ---------------------------------------------------------------------
  // Rewriting the tail
  // ---------------------------------------------------------------------

  /** The instruction one update produces: same kind and classical target,
      angle times the phase, new Paulis, conditions merged (update wins). */
  function Apply(t: Instruction, u: Update): Instruction {
    Instruction(t.kind, t.angle * u.phase, u.paulis, t.cbit, t.conditions + u.extra)
  }

  /** A rewrite by a sign keeps the instruction's kind, target and angle up
      to sign, takes the update's Paulis, and guards on both sets of bits,
      the update's values winning where both name a bit. */
  lemma ApplyMerges(t: Instruction, u: Update)
    ensures var r := Apply(t, u);
            && ((u.phase == 1 || u.phase == -1) ==> DerivedFrom(r, t))
            && r.paulis == u.paulis
            && r.conditions.Keys == t.conditions.Keys + u.extra.Keys
            && (forall bit :: bit in u.extra ==> r.conditions[bit] == u.extra[bit])
            && (forall bit :: bit in t.conditions && bit !in u.extra ==> r.conditions[bit] == t.conditions[bit])
  {
  }

  function Reversed<T>(s: seq<T>): (r: seq<T>)
    ensures |r| == |s|
    decreases |s|
  {
    if |s| == 0 then [] else [s[|s| - 1]] + Reversed(s[..|s| - 1])
  }

  lemma ReversedShort<T>(s: seq<T>)
    ensures |s| == 1 ==> Reversed(s) == s
    ensures |s| == 2 ==> Reversed(s) == [s[1], s[0]]
  {
    if |s| == 2 {
      assert s[..1] == [s[0]];
    }
  }

  /** The updates as instructions, in the order they were computed. */
  function Applied(t: Instruction, us: seq<Update>): (r: seq<Instruction>)
    ensures |r| == |us|
    ensures forall j :: 0 <= j < |us| ==> r[j] == Apply(t, us[j])
  {
    seq(|us|, j requires 0 <= j < |us| => Apply(t, us[j]))
  }

  /** The shape of the rule's output that the rewrite of the tail relies on. */
  lemma UpdateShape(angle: int, first: seq<Pauli>, second: seq<Pauli>, firstC: Conditions, secondC: Conditions)
    ensures var us := CommutedPauliRotations(angle, first, second, firstC, secondC);
            && (|us| == 1 ==> us[0].extra == map[])
            && (|us| == 2 ==> us[0].extra == firstC && us[1] == Update(1, second, Negated(firstC)))
            && (|us| == 2 ==> Branches(firstC, secondC) && !Contradicts(firstC, secondC))
  {
  }

  /** What replaces `t` when the Clifford `c` passes it. Each update is
      inserted at the same cursor, so the last one computed comes first. */
  function Replacements(c: Instruction, t: Instruction): (r: seq<Instruction>)
    ensures 1 <= |r| <= 2
    ensures forall j :: 0 <= j < |r| ==>
      && r[j].kind == t.kind && r[j].cbit == t.cbit
      && (r[j].angle == t.angle || r[j].angle == -t.angle)
    ensures |r| == 1 ==> r[0].conditions == t.conditions
    ensures |r| == 2 ==>
      && r[0] == t.(conditions := t.conditions + Negated(c.conditions))
      && r[1].conditions == t.conditions + c.conditions
  {
    var us := CommutedPauliRotations(c.angle, c.paulis, t.paulis, c.conditions, t.conditions);
    UpdateShape(c.angle, c.paulis, t.paulis, c.conditions, t.conditions);
    var ins := Applied(t, us);
    ReversedShort(ins);
    Reversed(ins)
  }

  /** Moving the Clifford `c` across `ts`: each instruction in turn is replaced
      by its rewrites, and the rewrites are not visited again. */
  function Sweep(c: Instruction, ts: seq<Instruction>): (r: seq<Instruction>)
    ensures |ts| <= |r| <= 2 * |ts|
    ensures NoClifford(ts) ==> NoClifford(r)
    decreases |ts|
  {
    if |ts| == 0 then []
    else Sweep(c, ts[..|ts| - 1]) + Replacements(c, ts[|ts| - 1])
  }

  /** `commute_cliffords_to_end`: scanning right to left, each Clifford is
      deleted and swept through the tail already rewritten; every other
      instruction stays where it is. No Clifford remains. */
  function CommuteToEnd(rs: seq<Instruction>): (r: seq<Instruction>)
    ensures NoClifford(r)
    decreases |rs|
  {
    if |rs| == 0 then []
    else
      var tail := CommuteToEnd(rs[1..]);
      if IsClifford(rs[0]) then Sweep(rs[0], tail) else [rs[0]] + tail
  }

  /** How one step of the scan changes the length and the two counts. */
  lemma CommuteToEndStep(rs: seq<Instruction>)
    requires |rs| > 0
    ensures var tail := |CommuteToEnd(rs[1..])|;
            if IsClifford(rs[0]) then
              && tail <= |CommuteToEnd(rs)| <= 2 * tail
              && CountNonClifford(rs) == CountNonClifford(rs[1..])
              && CountClifford(rs) == CountClifford(rs[1..]) + 1
            else
              && |CommuteToEnd(rs)| == 1 + tail
              && CountNonClifford(rs) == CountNonClifford(rs[1..]) + 1
              && CountClifford(rs) == CountClifford(rs[1..])
  {
  }

  /** Every non-Clifford instruction survives at least once. */
  lemma {:induction false} CommuteToEndLowerBound(rs: seq<Instruction>)
    ensures CountNonClifford(rs) <= |CommuteToEnd(rs)|
    decreases |rs|
  {
    if |rs| > 0 {
      CommuteToEndLowerBound(rs[1..]);
      CommuteToEndStep(rs);
    }
  }

  /** The largest output the scan can produce: each non-Clifford
      instruction, doubled once per Clifford. */
  function MaxOutput(nonClifford: nat, clifford: nat): nat {
    nonClifford * Pow2(clifford)
  }

  /** Each Clifford at most doubles the output: the worst-case blow-up of the
      branching on classical conditions. */
  lemma {:induction false} CommuteToEndUpperBound(rs: seq<Instruction>)
    ensures |CommuteToEnd(rs)| <= MaxOutput(CountNonClifford(rs), CountClifford(rs))
    decreases |rs|
  {
    if |rs| > 0 {
      var rest := rs[1..];
      CommuteToEndUpperBound(rest);
      CommuteToEndStep(rs);
      BoundStep(|CommuteToEnd(rs)|, |CommuteToEnd(rest)|, CountNonClifford(rest), CountClifford(rest),
                IsClifford(rs[0]));
    }
  }

  /** The arithmetic of one step of the upper bound. */
  lemma BoundStep(len: nat, t: nat, n: nat, k: nat, clifford: bool)
    requires t <= MaxOutput(n, k)
    requires clifford ==> len <= 2 * t
    requires !clifford ==> len == 1 + t
    ensures clifford ==> len <= MaxOutput(n, k + 1)
    ensures !clifford ==> len <= MaxOutput(n + 1, k)
  {
    Pow2Positive(k);
    var p := Pow2(k);
    assert Pow2(k + 1) == 2 * p;
    if clifford {
      assert n * (2 * p) == 2 * (n * p);
    } else {
      assert (n + 1) * p == n * p + p;
    }
  }

  lemma {:induction false} Pow2Positive(n: nat)
    ensures Pow2(n) >= 1
    decreases n
  {
    if n > 0 {
      Pow2Positive(n - 1);
    }
  }

  // ---------------------------------------------------------------------
  // Properties of the whole rewrite
  // ---------------------------------------------------------------------

  /** A circuit without Cliffords is returned as it is. */
  lemma {:induction false} NoCliffordUnchanged(rs: seq<Instruction>)
    requires NoClifford(rs)
    ensures CommuteToEnd(rs) == rs
    decreases |rs|
  {
    if |rs| > 0 {
      assert !IsClifford(rs[0]);
      NoCliffordUnchanged(rs[1..]);
      assert [rs[0]] + rs[1..] == rs;
    }
  }

  /** Running the engine a second time changes nothing. */
  lemma CommuteToEndIdempotent(rs: seq<Instruction>)
    ensures CommuteToEnd(CommuteToEnd(rs)) == CommuteToEnd(rs)
  {
    NoCliffordUnchanged(CommuteToEnd(rs));
  }

  /** `x` is a rewrite of `y`: same kind and classical target, same angle up
      to sign. */
  predicate DerivedFrom(x: Instruction, y: Instruction) {
    x.kind == y.kind && x.cbit == y.cbit && Abs(x.angle) == Abs(y.angle)
  }

  /** `x` is a rewrite of one of `ys`. */
  predicate DerivedFromSome(x: Instruction, ys: seq<Instruction>) {
    exists j :: 0 <= j < |ys| && DerivedFrom(x, ys[j])
  }

  lemma ReplacementsDerived(c: Instruction, t: Instruction)
    ensures forall j :: 0 <= j < |Replacements(c, t)| ==> DerivedFrom(Replacements(c, t)[j], t)
  {
  }

  /** Every instruction the sweep produces is a rewrite of an instruction it
      passed. */
  lemma {:induction false} SweepProvenance(c: Instruction, ts: seq<Instruction>)
    ensures forall i :: 0 <= i < |Sweep(c, ts)| ==> DerivedFromSome(Sweep(c, ts)[i], ts)
    decreases |ts|
  {
    if |ts| > 0 {
      var init := ts[..|ts| - 1];
      var last := ts[|ts| - 1];
      SweepProvenance(c, init);
      ReplacementsDerived(c, last);
      var front := Sweep(c, init);
      var rep := Replacements(c, last);
      forall i | 0 <= i < |front| ensures DerivedFromSome(front[i], ts) {
        SomeOfPrefix(front[i], init, ts);
      }
      forall k | 0 <= k < |rep| ensures DerivedFromSome(rep[k], ts) {
        assert DerivedFrom(rep[k], ts[|ts| - 1]);
      }
      AllDerivedConcat(front, rep, ts);
    }
  }

  lemma SomeOfPrefix(x: Instruction, init: seq<Instruction>, ts: seq<Instruction>)
    requires |init| <= |ts| && init == ts[..|init|]
    requires DerivedFromSome(x, init)
    ensures DerivedFromSome(x, ts)
  {
    var j :| 0 <= j < |init| && DerivedFrom(x, init[j]);
    assert init[j] == ts[j];
  }

  lemma AllDerivedConcat(a: seq<Instruction>, b: seq<Instruction>, ts: seq<Instruction>)
    requires forall i :: 0 <= i < |a| ==> DerivedFromSome(a[i], ts)
    requires forall i :: 0 <= i < |b| ==> DerivedFromSome(b[i], ts)
    ensures forall i :: 0 <= i < |a + b| ==> DerivedFromSome((a + b)[i], ts)
  {
    forall i | 0 <= i < |a + b| ensures DerivedFromSome((a + b)[i], ts) {
      if i < |a| {
        assert (a + b)[i] == a[i];
      } else {
        assert (a + b)[i] == b[i - |a|];
      }
    }
  }

  /** `x` is a rewrite of one of the non-Clifford instructions of `rs`. */
  predicate DerivedFromNonClifford(x: Instruction, rs: seq<Instruction>) {
    exists j :: 0 <= j < |rs| && !IsClifford(rs[j]) && DerivedFrom(x, rs[j])
  }

  /** Every output instruction is a rewrite of some non-Clifford input
      instruction: kind and classical target kept, |angle| preserved. */
  lemma {:induction false} CommuteToEndProvenance(rs: seq<Instruction>)
    ensures forall i :: 0 <= i < |CommuteToEnd(rs)| ==> DerivedFromNonClifford(CommuteToEnd(rs)[i], rs)
    decreases |rs|
  {
    if |rs| > 0 {
      var tail := CommuteToEnd(rs[1..]);
      CommuteToEndProvenance(rs[1..]);
      ProvenanceShift(rs, tail);
      if IsClifford(rs[0]) {
        ProvenanceThroughSweep(rs, tail);
      } else {
        ProvenanceKept(rs, tail);
      }
    }
  }

  /** A rewrite of the input's tail is a rewrite of the input. */
  lemma ProvenanceShift(rs: seq<Instruction>, tail: seq<Instruction>)
    requires |rs| > 0
    requires forall i :: 0 <= i < |tail| ==> DerivedFromNonClifford(tail[i], rs[1..])
    ensures forall i :: 0 <= i < |tail| ==> DerivedFromNonClifford(tail[i], rs)
  {
    var rest := rs[1..];
    forall i | 0 <= i < |tail| ensures DerivedFromNonClifford(tail[i], rs) {
      assert DerivedFromNonClifford(tail[i], rest);
      var j :| 0 <= j < |rest| && !IsClifford(rest[j]) && DerivedFrom(tail[i], rest[j]);
      assert rest[j] == rs[j + 1];
    }
  }

  /** Sweeping the head Clifford through the rewritten tail keeps provenance. */
  lemma ProvenanceThroughSweep(rs: seq<Instruction>, tail: seq<Instruction>)
    requires |rs| > 0 && IsClifford(rs[0])
    requires forall i :: 0 <= i < |tail| ==> DerivedFromNonClifford(tail[i], rs)
    ensures forall i :: 0 <= i < |Sweep(rs[0], tail)| ==> DerivedFromNonClifford(Sweep(rs[0], tail)[i], rs)
  {
    var r := Sweep(rs[0], tail);
    SweepProvenance(rs[0], tail);
    forall i | 0 <= i < |r| ensures DerivedFromNonClifford(r[i], rs) {
      assert DerivedFromSome(r[i], tail);
      var m :| 0 <= m < |tail| && DerivedFrom(r[i], tail[m]);
      assert DerivedFromNonClifford(tail[m], rs);
      var j :| 0 <= j < |rs| && !IsClifford(rs[j]) && DerivedFrom(tail[m], rs[j]);
      assert DerivedFrom(r[i], rs[j]);
    }
  }

  /** A non-Clifford head is kept in front of the rewritten tail. */
  lemma ProvenanceKept(rs: seq<Instruction>, tail: seq<Instruction>)
    requires |rs| > 0 && !IsClifford(rs[0])
    requires forall i :: 0 <= i < |tail| ==> DerivedFromNonClifford(tail[i], rs)
    ensures forall i :: 0 <= i < |[rs[0]] + tail| ==> DerivedFromNonClifford(([rs[0]] + tail)[i], rs)
  {
    var r := [rs[0]] + tail;
    forall i | 0 <= i < |r| ensures DerivedFromNonClifford(r[i], rs) {
      if i == 0 {
        assert DerivedFrom(r[0], rs[0]);
      } else {
        assert r[i] == tail[i - 1];
      }
    }
  }

  /** Unconditional Cliffords never branch: the output has exactly one
      instruction per non-Clifford input instruction. */
  lemma {:induction false} UnconditionalCliffordsKeepSize(rs: seq<Instruction>)
    requires forall i :: 0 <= i < |rs| && IsClifford(rs[i]) ==> rs[i].conditions == map[]
    ensures |CommuteToEnd(rs)| == CountNonClifford(rs)
    decreases |rs|
  {
    if |rs| > 0 {
      var rest := rs[1..];
      assert forall i :: 0 <= i < |rest| && IsClifford(rest[i]) ==> rest[i].conditions == map[] by {
        forall i | 0 <= i < |rest| && IsClifford(rest[i]) ensures rest[i].conditions == map[] {
          assert rest[i] == rs[i + 1];
        }
      }
      UnconditionalCliffordsKeepSize(rest);
      if IsClifford(rs[0]) {
        SweepKeepsSize(rs[0], CommuteToEnd(rest));
      }
    }
  }

  lemma {:induction false} SweepKeepsSize(c: Instruction, ts: seq<Instruction>)
    requires c.conditions == map[]
    ensures |Sweep(c, ts)| == |ts|
    decreases |ts|
  {
    if |ts| > 0 {
      SweepKeepsSize(c, ts[..|ts| - 1]);
      var t := ts[|ts| - 1];
      UpdateShape(c.angle, c.paulis, t.paulis, c.conditions, t.conditions);
    }
  }

  /** With a single-bit Clifford guard, the two branches it creates split the
      passed instruction's guard exactly: whenever the original would run,
      exactly one of the two rewrites runs, and neither runs otherwise. */
  lemma BranchGuardsPartition(c: Instruction, t: Instruction, key: int, value: int, bits: int -> int)
    requires c.conditions == map[key := value]
    requires value == 0 || value == 1
    requires bits(key) == 0 || bits(key) == 1
    requires |Replacements(c, t)| == 2
    ensures var r := Replacements(c, t);
            && ((Holds(bits, r[0].conditions) || Holds(bits, r[1].conditions)) <==> Holds(bits, t.conditions))
            && !(Holds(bits, r[0].conditions) && Holds(bits, r[1].conditions))
  {
    BranchConditions(c, t, key, value);
    SplitOnNewBit(bits, t.conditions, key, value);
  }

  /** The two guards a one-bit Clifford guard produces: the passed guard
      extended by the complemented bit, and by the bit itself. */
  lemma BranchConditions(c: Instruction, t: Instruction, key: int, value: int)
    requires c.conditions == map[key := value]
    requires value == 0 || value == 1
    requires |Replacements(c, t)| == 2
    ensures key !in t.conditions
    ensures Replacements(c, t)[0].conditions == t.conditions[key := 1 - value]
    ensures Replacements(c, t)[1].conditions == t.conditions[key := value]
  {
    KeyIsNewWhenBranching(c, t, key, value);
    NegatedBit(key, value);
    var r := Replacements(c, t);
    assert r[0].conditions == t.conditions + map[key := 1 - value];
    assert r[1].conditions == t.conditions + map[key := value];
    MergeOne(t.conditions, key, 1 - value);
    MergeOne(t.conditions, key, value);
  }

  lemma MergeOne(g: Conditions, key: int, value: int)
    ensures g + map[key := value] == g[key := value]
  {
  }

  /** Extending a guard by a fresh bit, once with each value, splits it. */
  lemma SplitOnNewBit(bits: int -> int, g: Conditions, key: int, value: int)
    requires key !in g
    requires value == 0 || value == 1
    requires bits(key) == 0 || bits(key) == 1
    ensures (Holds(bits, g[key := 1 - value]) || Holds(bits, g[key := value])) <==> Holds(bits, g)
    ensures !(Holds(bits, g[key := 1 - value]) && Holds(bits, g[key := value]))
  {
    GuardWithNewKey(bits, g, key, 1 - value);
    GuardWithNewKey(bits, g, key, value);
  }

  /** Complementing a one-bit guard flips its required value. */
  lemma NegatedBit(key: int, value: int)
    requires value == 0 || value == 1
    ensures Negated(map[key := value]) == map[key := 1 - value]
  {
    var n := Negated(map[key := value]);
    assert n.Keys == {key};
    assert n[key] == 1 - value;
  }

  /** A branch only happens on a bit the passed instruction does not test. */
  lemma KeyIsNewWhenBranching(c: Instruction, t: Instruction, key: int, value: int)
    requires c.conditions == map[key := value]
    requires |Replacements(c, t)| == 2
    ensures key !in t.conditions
  {
    UpdateShape(c.angle, c.paulis, t.paulis, c.conditions, t.conditions);
  }

  lemma GuardWithNewKey(bits: int -> int, c: Conditions, key: int, value: int)
    requires key !in c
    ensures Holds(bits, c[key := value]) <==> Holds(bits, c) && bits(key) == value
  {
    if Holds(bits, c) && bits(key) == value {
      forall k | k in c[key := value] ensures bits(k) == c[key := value][k] {
        if k != key { assert k in c; }
      }
    }
  }

  /** With a two-bit Clifford guard the per-bit complement is not the
      negation of the guard: an assignment that fails the guard on one bit
      only satisfies neither branch, although the original instruction would
      have run. This is why the branch property is stated for one bit. */
  lemma MultiBitComplementLosesCase()
    ensures var c := Instruction(Rotate, 2, [X], "", map[0 := 1, 1 := 1]);
            var t := Instruction(Rotate, 8, [Z], "", map[]);
            var r := Replacements(c, t);
            var bits := (k: int) => if k == 0 then 1 else 0;
            && |r| == 2
            && Holds(bits, t.conditions)
            && !Holds(bits, r[0].conditions)
            && !Holds(bits, r[1].conditions)
  {
    var c := Instruction(Rotate, 2, [X], "", map[0 := 1, 1 := 1]);
    var t := Instruction(Rotate, 8, [Z], "", map[]);
    var bits := (k: int) => if k == 0 then 1 else 0;
    assert AnticommutingCount(c.paulis, t.paulis, 1) == 1;
    assert !Contradicts(c.conditions, t.conditions);
    assert Branches(c.conditions, t.conditions) by { assert 0 !in t.conditions; }
    var r := Replacements(c, t);
    UpdateShape(c.angle, c.paulis, t.paulis, c.conditions, t.conditions);
    assert r[0].conditions[1] == 0 && bits(0) != r[0].conditions[0];
    assert r[1].conditions[1] == 1 && bits(1) != r[1].conditions[1];
  }

  // ---------------------------------------------------------------------
  // The source's in-place loops
  // ---------------------------------------------------------------------

  /** `commute_cliffords_to_end` as the source runs it on a mutable list: a
      scan from the last index to the first that deletes each Clifford and
      sweeps it through everything after it. The instructions before the
      current index are never touched, and the result is the recursive
      rewrite above. */
  method CommuteCliffordsToEndInPlace(input: seq<Instruction>) returns (rotations: seq<Instruction>)
    ensures rotations == CommuteToEnd(input)
    ensures NoClifford(rotations)
  {
    rotations := input;
    var cliffordIndex := |input|;
    while cliffordIndex > 0
      invariant 0 <= cliffordIndex <= |input| && cliffordIndex <= |rotations|
      invariant rotations[..cliffordIndex] == input[..cliffordIndex]
      invariant rotations[cliffordIndex..] == CommuteToEnd(input[cliffordIndex..])
    {
      cliffordIndex := cliffordIndex - 1;
      var c := rotations[cliffordIndex];
      assert c == input[cliffordIndex] by {
        assert rotations[..cliffordIndex + 1][cliffordIndex] == input[..cliffordIndex + 1][cliffordIndex];
      }
      ghost var prefix := input[..cliffordIndex];
      assert input[cliffordIndex..][1..] == input[cliffordIndex + 1..];
      if IsClifford(c) {
        rotations := rotations[..cliffordIndex] + rotations[cliffordIndex + 1..];
        assert rotations[..cliffordIndex] == prefix;
        assert rotations[cliffordIndex..] == CommuteToEnd(input[cliffordIndex + 1..]);
        rotations := SweepInPlace(rotations, cliffordIndex, c);
      } else {
        assert rotations[..cliffordIndex] == prefix;
        assert rotations[cliffordIndex..] == [c] + rotations[cliffordIndex + 1..];
      }
    }
    assert rotations[0..] == rotations && input[0..] == input;
  }

  /** The inner cursor loop: from `start` to the end of the list, delete the
      instruction under the cursor, insert its rewrites there and step past
      them, so rewrites are never visited twice. */
  method SweepInPlace(list: seq<Instruction>, start: nat, c: Instruction) returns (rotations: seq<Instruction>)
    requires start <= |list|
    ensures rotations == list[..start] + Sweep(c, list[start..])
  {
    ghost var prefix := list[..start];
    ghost var tail := list[start..];
    ghost var swept: seq<Instruction> := [];
    ghost var done := 0;
    rotations := list;
    assert rotations == prefix + swept + tail[done..];
    var tIndex := start;
    while tIndex < |rotations|
      invariant 0 <= done <= |tail|
      invariant swept == Sweep(c, tail[..done])
      invariant tIndex == |prefix| + |swept|
      invariant rotations == prefix + swept + tail[done..]
      decreases |tail| - done
    {
      var t := rotations[tIndex];
      assert t == tail[done] by { CursorSplit(prefix + swept, tail, done, rotations); }
      ghost var rs := Replacements(c, t);
      SweepStep(c, tail, done);
      CursorStep(prefix, swept, rs, tail, done, rotations);
      rotations := rotations[..tIndex] + rotations[tIndex + 1..];
      var updates := CommutedPauliRotations(c.angle, c.paulis, t.paulis, c.conditions, t.conditions);
      assert Reversed(Applied(t, updates)) == rs;
      rotations := InsertAtCursor(rotations, tIndex, t, updates);
      assert rotations == prefix + (swept + rs) + tail[done + 1..];
      swept := swept + rs;
      done := done + 1;
      tIndex := tIndex + |updates|;
    }
    assert tail[..done] == tail;
  }

  /** Deleting the instruction under the cursor leaves the swept part and the
      rest of the tail. */
  lemma CursorSplit(swept: seq<Instruction>, tail: seq<Instruction>, done: nat, rotations: seq<Instruction>)
    requires done < |tail| && rotations == swept + tail[done..]
    ensures |swept| < |rotations| && rotations[|swept|] == tail[done]
    ensures rotations[..|swept|] + rotations[|swept| + 1..] == swept + tail[done + 1..]
    ensures rotations[..|swept|] == swept && rotations[|swept| + 1..] == tail[done + 1..]
  {
    assert rotations[|swept|..] == tail[done..];
  }

  /** One step of the cursor: deleting the instruction under it and inserting
      `rs` in its place extends the swept part by `rs`. */
  lemma CursorStep(prefix: seq<Instruction>, swept: seq<Instruction>, rs: seq<Instruction>,
                   tail: seq<Instruction>, done: nat, rotations: seq<Instruction>)
    requires done < |tail| && rotations == prefix + swept + tail[done..]
    ensures var n := |prefix| + |swept|;
            n < |rotations| &&
            var deleted := rotations[..n] + rotations[n + 1..];
            deleted[..n] + rs + deleted[n..] == prefix + (swept + rs) + tail[done + 1..]
  {
    var n := |prefix| + |swept|;
    CursorSplit(prefix + swept, tail, done, rotations);
    var deleted := rotations[..n] + rotations[n + 1..];
    assert deleted[..n] == prefix + swept;
    assert deleted[n..] == tail[done + 1..];
  }

  /** Extending the swept part by one instruction appends its rewrites. */
  lemma SweepStep(c: Instruction, tail: seq<Instruction>, done: nat)
    requires done < |tail|
    ensures Sweep(c, tail[..done + 1]) == Sweep(c, tail[..done]) + Replacements(c, tail[done])
    ensures var t := tail[done];
            Replacements(c, t) == Reversed(Applied(t, CommutedPauliRotations(c.angle, c.paulis, t.paulis, c.conditions, t.conditions)))
  {
    assert tail[..done + 1][..done] == tail[..done];
  }

  /** `rotations.insert(t_index, ...)` once per update, always at the same
      cursor: the updates end up in reverse order. */
  method InsertAtCursor(list: seq<Instruction>, cursor: nat, t: Instruction, updates: seq<Update>)
    returns (rotations: seq<Instruction>)
    requires cursor <= |list|
    ensures rotations == list[..cursor] + Reversed(Applied(t, updates)) + list[cursor..]
  {
    ghost var applied := Applied(t, updates);
    rotations := list;
    var j := 0;
    while j < |updates|
      invariant 0 <= j <= |updates|
      invariant rotations == list[..cursor] + Reversed(applied[..j]) + list[cursor..]
    {
      assert applied[..j + 1][..j] == applied[..j];
      rotations := rotations[..cursor] + [Apply(t, updates[j])] + rotations[cursor..];
      j := j + 1;
    }
    assert applied[..j] == applied;
  }

  // ---------------------------------------------------------------------
  // Worked examples
  // ---------------------------------------------------------------------

  /** A pi/4 X rotation pushed past a pi/8 Z rotation on one qubit turns it
      into a pi/8 Y rotation; the table gives (X, Z) sign +1, so the angle
      stays 8. */
  lemma QuarterTurnPastEighthTurn()
    ensures CommuteToEnd([Instruction(Rotate, 4, [X], "", map[]), Instruction(Rotate, 8, [Z], "", map[])])
         == [Instruction(Rotate, 8, [Y], "", map[])]
  {
    var c := Instruction(Rotate, 4, [X], "", map[]);
    var t := Instruction(Rotate, 8, [Z], "", map[]);
    var rs := [c, t];
    assert rs[1..] == [t];
    assert [t][1..] == [];
    assert CommuteToEnd([t]) == [t];
    assert !CommuteFold([X], [Z], 1);
    assert !Contradicts(map[], map[]);
    assert PhaseFold([X], [Z], 1) == 1;
    assert ConjugatedPaulis([X], [Z], 1) == [Y];
    assert Sweep(c, [t]) == Replacements(c, t);
  }

  /** A pi/2 X rotation before an X measurement: the two commute, so the
      measurement is kept as it is. */
  lemma HalfTurnBeforeSameMeasurement()
    ensures CommuteToEnd([Instruction(Rotate, 2, [X], "", map[]), Instruction(Measure, 1, [X], "0", map[])])
         == [Instruction(Measure, 1, [X], "0", map[])]
  {
    var c := Instruction(Rotate, 2, [X], "", map[]);
    var m := Instruction(Measure, 1, [X], "0", map[]);
    assert [c, m][1..] == [m];
    assert [m][1..] == [];
    assert CommuteToEnd([m]) == [m];
    assert CommuteFold([X], [X], 1);
    assert Sweep(c, [m]) == Replacements(c, m);
  }

  /** A half-turn Clifford guarded by one bit that the passed instruction
      does not test, and anticommuting with it, splits it in two: the same
      Paulis, once under each value of that bit. */
  lemma FreshGuardBranches(c: Instruction, t: Instruction, key: int, value: int)
    requires Abs(c.angle) == 2 && c.conditions == map[key := value]
    requires value == 0 || value == 1
    requires key !in t.conditions
    requires AnticommutingCount(c.paulis, t.paulis, Min(|c.paulis|, |t.paulis|)) % 2 == 1
    ensures var r := Replacements(c, t);
            && |r| == 2
            && r[0].paulis == t.paulis && r[1].paulis == t.paulis
            && r[0].conditions == t.conditions[key := 1 - value]
            && r[1].conditions == t.conditions[key := value]
  {
    assert !Contradicts(c.conditions, t.conditions);
    assert !ImpliedBy(c.conditions, t.conditions) by { assert key in c.conditions; }
    var us := CommutedPauliRotations(c.angle, c.paulis, t.paulis, c.conditions, t.conditions);
    assert |us| == 2 && us[0].paulis == t.paulis && us[1].paulis == t.paulis;
    var r := Replacements(c, t);
    assert r == Reversed(Applied(t, us));
    ReversedShort(Applied(t, us));
    BranchConditions(c, t, key, value);
  }

  /** Two conditioned pi/2 X rotations, each guarded by a bit the Z rotation
      after them does not mention, quadruple it: 2^2 branches. */
  lemma TwoGuardedCliffordsGiveFourBranches()
    ensures |CommuteToEnd([
      Instruction(Rotate, 2, [X], "", map[0 := 1]),
      Instruction(Rotate, 2, [X], "", map[1 := 1]),
      Instruction(Rotate, 8, [Z], "", map[])])| == 4
  {
    var c0 := Instruction(Rotate, 2, [X], "", map[0 := 1]);
    var c1 := Instruction(Rotate, 2, [X], "", map[1 := 1]);
    var t := Instruction(Rotate, 8, [Z], "", map[]);
    assert [c0, c1, t][1..] == [c1, t];
    assert [c1, t][1..] == [t];
    assert [t][1..] == [];
    assert CommuteToEnd([t]) == [t];
    assert AnticommutingCount([X], [Z], 1) == 1;
    FreshGuardBranches(c1, t, 1, 1);
    assert Sweep(c1, [t]) == Replacements(c1, t);
    var mid := Replacements(c1, t);
    assert CommuteToEnd([c1, t]) == mid;
    FreshGuardBranches(c0, mid[0], 0, 1);
    FreshGuardBranches(c0, mid[1], 0, 1);
    assert mid[..1] == [mid[0]] && mid[..2] == mid;
    assert [mid[0]][..0] == [];
    assert Sweep(c0, mid) == Sweep(c0, [mid[0]]) + Replacements(c0, mid[1]);
  }
}
