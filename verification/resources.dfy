/** The resource estimate's counting layer: a circuit's gate names are tallied,
    with each maximal run of phase gates (z, s, sdg, t, tdg) counted once under
    the most expensive class it contains, and a tally is priced in rounds of
    error correction as `count * (a * d + b)` per costed gate at code
    distance `d`. */
module Resources {
  import opened Wrappers

  // ---------------------------------------------------------------------
  // The tally (a Python Counter: insertion-ordered, absent keys count 0)
  // ---------------------------------------------------------------------

  /** A counter as its items, in insertion order. */
  type Counter = seq<(string, nat)>

  /** Whether a key was ever inserted. */
  predicate HasKey(c: Counter, key: string)
    decreases |c|
  {
    |c| > 0 && (c[0].0 == key || HasKey(c[1..], key))
  }

  /** No key is stored twice. */
  predicate DistinctKeys(c: Counter)
    decreases |c|
  {
    |c| == 0 || (!HasKey(c[1..], c[0].0) && DistinctKeys(c[1..]))
  }

  /** `counter[key]`: the stored count, or 0 for a key never inserted. */
  function Count(c: Counter, key: string): (n: nat)
    ensures !HasKey(c, key) ==> n == 0
    decreases |c|
  {
    if |c| == 0 then 0 else if c[0].0 == key then c[0].1 else Count(c[1..], key)
  }

  /** The sum of all counts. */
  function Total(c: Counter): nat
    decreases |c|
  {
    if |c| == 0 then 0 else c[0].1 + Total(c[1..])
  }

  /** `counter[key] += 1`: bump the key in place, or append it with count 1. */
  function Increment(c: Counter, key: string): (r: Counter)
    requires DistinctKeys(c)
    ensures DistinctKeys(r)
    ensures forall k :: HasKey(r, k) <==> HasKey(c, k) || k == key
    ensures Count(r, key) == Count(c, key) + 1
    ensures forall other :: other != key ==> Count(r, other) == Count(c, other)
    ensures Total(r) == Total(c) + 1
    ensures |r| == |c| || (|r| == |c| + 1 && r[..|c|] == c && r[|c|] == (key, 1))
    decreases |c|
  {
    if |c| == 0 then [(key, 1)]
    else if c[0].0 == key then
      assert ([(key, c[0].1 + 1)] + c[1..])[1..] == c[1..];
      [(key, c[0].1 + 1)] + c[1..]
    else
      var rest := Increment(c[1..], key);
      assert ([c[0]] + rest)[1..] == rest;
      [c[0]] + rest
  }

  // ---------------------------------------------------------------------
  // num_rounds
  // ---------------------------------------------------------------------

  /** Rounds per gate type: `(a, b)` means `a * d + b` rounds at distance d. */
  type CostTable = map<string, (real, real)>

  /** The table for the model in which Clifford gates are executed. */
  const DoCliffordsCost: CostTable := map[
    "h" := (3.0, 4.0),
    "t_like" := (2.5, 4.0),
    "cx" := (3.0, 4.0),
    "s_like" := (1.5, 3.0),
    "measure" := (0.0, 1.0)]

  /** The table for the model in which Clifford gates are commuted away. */
  const CommuteCliffordsCost: CostTable := map[
    "t_like" := (1.0, 1.0),
    "measure" := (1.0, 0.0)]

  predicate NonNegative(cost: CostTable) {
    forall g :: g in cost ==> cost[g].0 >= 0.0 && cost[g].1 >= 0.0
  }

  /** Rounds one gate of a type costs; types absent from the table cost none. */
  function GateRounds(cost: CostTable, gate: string, d: real): real {
    if gate in cost then cost[gate].0 * d + cost[gate].1 else 0.0
  }

  /** `count * x` for a gate count. */
  function Scale(count: nat, x: real): real {
    count as real * x
  }

  /** `num_rounds`: the rounds a tally costs at distance `d`. Gates the table
      does not price cost nothing. */
  function NumRounds(gates: Counter, cost: CostTable, d: real): (r: real)
    ensures (forall i :: 0 <= i < |gates| ==> gates[i].0 !in cost) ==> r == 0.0
    decreases |gates|
  {
    if |gates| == 0 then 0.0
    else (if gates[0].0 in cost then Scale(gates[0].1, GateRounds(cost, gates[0].0, d)) else 0.0)
         + NumRounds(gates[1..], cost, d)
  }

  /** A non-negative table at a non-negative distance never gives a negative
      number of rounds. */
  lemma {:induction false} NumRoundsNonNegative(gates: Counter, cost: CostTable, d: real)
    requires NonNegative(cost) && d >= 0.0
    ensures NumRounds(gates, cost, d) >= 0.0
    decreases |gates|
  {
    if |gates| > 0 {
      NumRoundsNonNegative(gates[1..], cost, d);
      ScaledRoundsNonNegative(cost, gates[0].0, gates[0].1, d);
    }
  }

  lemma ScaledRoundsNonNegative(cost: CostTable, g: string, n: nat, d: real)
    requires NonNegative(cost) && d >= 0.0
    ensures Scale(n, GateRounds(cost, g, d)) >= 0.0
  {
    GateRoundsMonotone(cost, g, 0.0, d);
    ScaleMonotone(n, 0.0, GateRounds(cost, g, d));
  }

  /** The distance coefficient of a tally: the sum of `count * a`. */
  function Slope(gates: Counter, cost: CostTable): real
    decreases |gates|
  {
    if |gates| == 0 then 0.0
    else (if gates[0].0 in cost then Scale(gates[0].1, cost[gates[0].0].0) else 0.0)
         + Slope(gates[1..], cost)
  }

  /** The constant term of a tally: the sum of `count * b`. */
  function Intercept(gates: Counter, cost: CostTable): real
    decreases |gates|
  {
    if |gates| == 0 then 0.0
    else (if gates[0].0 in cost then Scale(gates[0].1, cost[gates[0].0].1) else 0.0)
         + Intercept(gates[1..], cost)
  }

  lemma ScaleAffine(n: nat, a: real, b: real, d: real)
    ensures Scale(n, a * d + b) == Scale(n, a) * d + Scale(n, b)
  {
  }

  lemma ScaleSucc(n: nat, x: real)
    ensures Scale(n + 1, x) == Scale(n, x) + x
  {
  }

  lemma ScaleMonotone(n: nat, x: real, y: real)
    requires x <= y
    ensures Scale(n, x) <= Scale(n, y)
  {
  }

  lemma Distribute(s: real, a: real, d: real)
    ensures (s + a) * d == s * d + a * d
  {
  }

  /** The rounds are affine in the distance, with the summed coefficients. */
  lemma {:induction false} NumRoundsAffine(gates: Counter, cost: CostTable, d: real)
    ensures NumRounds(gates, cost, d) == Slope(gates, cost) * d + Intercept(gates, cost)
    decreases |gates|
  {
    if |gates| > 0 {
      NumRoundsAffine(gates[1..], cost, d);
      var g := gates[0].0;
      if g in cost {
        ScaleAffine(gates[0].1, cost[g].0, cost[g].1, d);
        Distribute(Scale(gates[0].1, cost[g].0), Slope(gates[1..], cost), d);
      }
    }
  }

  /** One more gate of a type adds exactly that type's rounds, wherever the
      counter stores it; a type absent from the table adds nothing. */
  lemma {:induction false} NumRoundsIncrement(gates: Counter, cost: CostTable, d: real, gate: string)
    requires DistinctKeys(gates)
    ensures NumRounds(Increment(gates, gate), cost, d) == NumRounds(gates, cost, d) + GateRounds(cost, gate, d)
    decreases |gates|
  {
    var after := Increment(gates, gate);
    if |gates| > 0 {
      if gates[0].0 == gate {
        assert after[1..] == gates[1..];
        if gate in cost {
          ScaleSucc(gates[0].1, GateRounds(cost, gate, d));
        }
      } else {
        NumRoundsIncrement(gates[1..], cost, d, gate);
        assert after[1..] == Increment(gates[1..], gate);
      }
    } else {
      ScaleSucc(0, GateRounds(cost, gate, d));
      ScaleZero(GateRounds(cost, gate, d));
    }
  }

  lemma ScaleZero(x: real)
    ensures Scale(0, x) == 0.0
  {
  }

  lemma {:induction false} SlopeIncrement(gates: Counter, cost: CostTable, gate: string)
    requires DistinctKeys(gates)
    ensures Slope(Increment(gates, gate), cost)
         == Slope(gates, cost) + (if gate in cost then cost[gate].0 else 0.0)
    decreases |gates|
  {
    var after := Increment(gates, gate);
    if |gates| > 0 {
      if gates[0].0 == gate {
        assert after[1..] == gates[1..];
        if gate in cost {
          ScaleSucc(gates[0].1, cost[gate].0);
        }
      } else {
        SlopeIncrement(gates[1..], cost, gate);
        assert after[1..] == Increment(gates[1..], gate);
      }
    }
  }

  lemma {:induction false} InterceptIncrement(gates: Counter, cost: CostTable, gate: string)
    requires DistinctKeys(gates)
    ensures Intercept(Increment(gates, gate), cost)
         == Intercept(gates, cost) + (if gate in cost then cost[gate].1 else 0.0)
    decreases |gates|
  {
    var after := Increment(gates, gate);
    if |gates| > 0 {
      if gates[0].0 == gate {
        assert after[1..] == gates[1..];
        if gate in cost {
          ScaleSucc(gates[0].1, cost[gate].1);
        }
      } else {
        InterceptIncrement(gates[1..], cost, gate);
        assert after[1..] == Increment(gates[1..], gate);
      }
    }
  }

  /** With a non-negative table, a larger distance never needs fewer rounds. */
  lemma {:induction false} NumRoundsMonotone(gates: Counter, cost: CostTable, d1: real, d2: real)
    requires NonNegative(cost) && d1 <= d2
    ensures NumRounds(gates, cost, d1) <= NumRounds(gates, cost, d2)
    decreases |gates|
  {
    if |gates| > 0 {
      NumRoundsMonotone(gates[1..], cost, d1, d2);
      var g := gates[0].0;
      if g in cost {
        GateRoundsMonotone(cost, g, d1, d2);
        ScaleMonotone(gates[0].1, GateRounds(cost, g, d1), GateRounds(cost, g, d2));
      }
    }
  }

  lemma GateRoundsMonotone(cost: CostTable, g: string, d1: real, d2: real)
    requires NonNegative(cost) && d1 <= d2
    ensures GateRounds(cost, g, d1) <= GateRounds(cost, g, d2)
  {
    if g in cost {
      var a := cost[g].0;
      assert a * d1 <= a * d2 by {
        assert a * (d2 - d1) >= 0.0;
      }
    }
  }

  /** Both tables of the estimate are non-negative. */
  lemma TablesNonNegative()
    ensures NonNegative(DoCliffordsCost) && NonNegative(CommuteCliffordsCost)
    ensures DoCliffordsCost.Keys == {"h", "t_like", "cx", "s_like", "measure"}
    ensures CommuteCliffordsCost.Keys == {"t_like", "measure"}
  {
  }

  /** Without executed Cliffords, only T-like runs and measurements cost: each
      T-like run `d + 1` rounds and each measurement `d`. */
  lemma {:induction false} CommuteCostOnlyCounts(gates: Counter, d: real)
    requires DistinctKeys(gates)
    ensures NumRounds(gates, CommuteCliffordsCost, d)
         == Scale(Count(gates, "t_like"), d + 1.0) + Scale(Count(gates, "measure"), d)
    decreases |gates|
  {
    if |gates| > 0 {
      var g := gates[0].0;
      var rest := gates[1..];
      CommuteCostOnlyCounts(rest, d);
      assert GateRounds(CommuteCliffordsCost, "t_like", d) == d + 1.0;
      assert GateRounds(CommuteCliffordsCost, "measure", d) == d;
      if g == "t_like" {
        assert Count(rest, "t_like") == 0;
        ScaleZero(d + 1.0);
      } else if g == "measure" {
        assert Count(rest, "measure") == 0;
        ScaleZero(d);
      }
    } else {
      ScaleZero(d + 1.0);
      ScaleZero(d);
    }
  }

  lemma Units(n: nat)
    ensures Scale(n, 1.0) == n as real && Scale(n, 0.0) == 0.0
  {
  }

  lemma {:induction false} CommuteSlope(gates: Counter)
    requires DistinctKeys(gates)
    ensures Slope(gates, CommuteCliffordsCost) == Count(gates, "t_like") as real + Count(gates, "measure") as real
    decreases |gates|
  {
    if |gates| > 0 {
      CommuteSlope(gates[1..]);
      Units(gates[0].1);
    }
  }

  lemma {:induction false} CommuteIntercept(gates: Counter)
    requires DistinctKeys(gates)
    ensures Intercept(gates, CommuteCliffordsCost) == Count(gates, "t_like") as real
    decreases |gates|
  {
    if |gates| > 0 {
      CommuteIntercept(gates[1..]);
      Units(gates[0].1);
    }
  }

  // ---------------------------------------------------------------------
  // The phase-run classifier
  // ---------------------------------------------------------------------

  /** The gate names the tally folds into runs. */
  predicate IsPhaseName(g: string) {
    g == "z" || g == "s" || g == "sdg" || g == "t" || g == "tdg"
  }

  /** The names a run is counted under. */
  predicate IsRunName(g: string) {
    g == "t_like" || g == "s_like" || g == "z"
  }

  /** The class a finished run is counted under: T-like if it holds a T or
      T^-1, otherwise S-like if it holds an S or S^-1, otherwise Z if it holds
      a Z; a set with none of these is not counted. */
  function RunClass(run: set<string>): (r: Option<string>)
    ensures r.Some? ==> IsRunName(r.value)
    ensures (forall g :: g in run ==> IsPhaseName(g)) ==> (r.Some? <==> run != {})
  {
    if "t" in run || "tdg" in run then Some("t_like")
    else if "s" in run || "sdg" in run then Some("s_like")
    else if "z" in run then Some("z")
    else
      assert forall g :: g in run ==> !IsPhaseName(g);
      None
  }

  /** How expensive a run class is: T-like above S-like above Z above none. */
  function ClassRank(c: Option<string>): nat {
    match c
    case None => 0
    case Some(name) => if name == "t_like" then 3 else if name == "s_like" then 2 else 1
  }

  /** The class a single phase gate would give a run on its own, ranked. */
  function GateRank(g: string): nat {
    if g == "t" || g == "tdg" then 3
    else if g == "s" || g == "sdg" then 2
    else if g == "z" then 1
    else 0
  }

  /** A run is counted under the most expensive class any of its gates
      belongs to: no gate ranks above the class, and some gate attains it. */
  lemma RunClassIsMostExpensive(run: set<string>)
    ensures forall g :: g in run ==> GateRank(g) <= ClassRank(RunClass(run))
    ensures RunClass(run).Some? ==> exists g :: g in run && GateRank(g) == ClassRank(RunClass(run))
  {
    var r := RunClass(run);
    if r.Some? {
      if "t" in run { assert GateRank("t") == 3; }
      else if "tdg" in run { assert GateRank("tdg") == 3; }
      else if "s" in run { assert GateRank("s") == 2; }
      else if "sdg" in run { assert GateRank("sdg") == 2; }
      else { assert GateRank("z") == 1; }
    }
  }

  /** Merging two runs gives the more expensive of their two classes. */
  lemma RunClassUnion(a: set<string>, b: set<string>)
    ensures RunClass(a + b) == if ClassRank(RunClass(a)) >= ClassRank(RunClass(b)) then RunClass(a) else RunClass(b)
  {
  }

  /** Close a pending run: count it under its class, if it has one. Only that
      class's count moves, and by one. */
  function Flush(gates: Counter, run: set<string>): (r: Counter)
    requires DistinctKeys(gates)
    ensures DistinctKeys(r)
    ensures forall k :: Count(r, k) == Count(gates, k) + (if RunClass(run) == Some(k) then 1 else 0)
    ensures Total(r) == Total(gates) + (if RunClass(run).Some? then 1 else 0)
  {
    if run == {} then gates
    else match RunClass(run)
      case Some(cls) => Increment(gates, cls)
      case None => gates
  }

  predicate PhaseOnly(run: set<string>) {
    forall g :: g in run ==> IsPhaseName(g)
  }

  /** The loop from some point on, with the phase gates of the current run
      in `run` and the tally so far in `gates`. A phase gate joins the run; any
      other gate first closes the run, then is counted under its own name. A
      run still open at the end is not counted. */
  function Tally(names: seq<string>, run: set<string>, gates: Counter): (r: Counter)
    requires DistinctKeys(gates)
    ensures DistinctKeys(r)
    decreases |names|
  {
    if |names| == 0 then gates
    else
      var g := names[0];
      if IsPhaseName(g) then Tally(names[1..], run + {g}, gates)
      else Tally(names[1..], {}, Increment(Flush(gates, run), g))
  }

  /** The tally of a whole circuit. */
  function CountGates(names: seq<string>): Counter {
    Tally(names, {}, [])
  }

  /** The loop as the source writes it. */
  method CountGatesLoop(names: seq<string>) returns (gates: Counter)
    ensures gates == CountGates(names)
  {
    var run: set<string> := {};
    gates := [];
    var i := 0;
    while i < |names|
      invariant 0 <= i <= |names|
      invariant DistinctKeys(gates)
      invariant Tally(names[i..], run, gates) == CountGates(names)
    {
      var g := names[i];
      assert names[i..][1..] == names[i + 1..];
      if g == "z" || g == "s" || g == "sdg" || g == "t" || g == "tdg" {
        run := run + {g};
      } else {
        if run != {} {
          if "t" in run || "tdg" in run {
            gates := Increment(gates, "t_like");
          } else if "s" in run || "sdg" in run {
            gates := Increment(gates, "s_like");
          } else if "z" in run {
            gates := Increment(gates, "z");
          }
          run := {};
        }
        gates := Increment(gates, g);
      }
      i := i + 1;
    }
  }

  /** How often a name occurs. */
  function Occurrences(names: seq<string>, g: string): nat
    decreases |names|
  {
    if |names| == 0 then 0 else (if names[0] == g then 1 else 0) + Occurrences(names[1..], g)
  }

  /** Number of gates that are not phase gates. */
  function NonPhaseCount(names: seq<string>): nat
    decreases |names|
  {
    if |names| == 0 then 0 else (if IsPhaseName(names[0]) then 0 else 1) + NonPhaseCount(names[1..])
  }

  /** Number of places where a phase gate is directly followed by another
      gate: the runs that some later gate closes. */
  function ClosedRuns(names: seq<string>): nat
    decreases |names|
  {
    if |names| < 2 then 0
    else (if IsPhaseName(names[0]) && !IsPhaseName(names[1]) then 1 else 0) + ClosedRuns(names[1..])
  }

  /** A gate name that is neither a phase gate nor a run class is counted
      once per occurrence; a phase gate other than z is never counted under
      its own name. */
  lemma {:induction false} TallyCountsGate(names: seq<string>, run: set<string>, gates: Counter, g: string)
    requires DistinctKeys(gates) && !IsRunName(g)
    ensures Count(Tally(names, run, gates), g)
         == Count(gates, g) + (if IsPhaseName(g) then 0 else Occurrences(names, g))
    decreases |names|
  {
    if |names| > 0 {
      var h := names[0];
      if IsPhaseName(h) {
        TallyCountsGate(names[1..], run + {h}, gates, g);
      } else {
        var flushed := Flush(gates, run);
        assert Count(flushed, g) == Count(gates, g);
        TallyCountsGate(names[1..], {}, Increment(flushed, h), g);
      }
    }
  }

  // A reference count of runs by class, read off the gate sequence by
  // position rather than by replaying the loop.

  /** The phase gates standing directly before position `i`: the maximal
      block of phase gates ending at `i - 1`, joined to `run` when that block
      reaches back to the start. */
  function OpenRun(names: seq<string>, run: set<string>, i: nat): set<string>
    requires i <= |names|
    decreases i
  {
    if i == 0 then run
    else if !IsPhaseName(names[i - 1]) then {}
    else OpenRun(names, run, i - 1) + {names[i - 1]}
  }

  /** Number of positions below `n` holding a gate that is not a phase gate
      and closes a block of class `cls`. */
  function ClosedOfClass(names: seq<string>, run: set<string>, cls: string, n: nat): nat
    requires n <= |names|
    decreases n
  {
    if n == 0 then 0
    else
      ClosedOfClass(names, run, cls, n - 1)
      + (if !IsPhaseName(names[n - 1]) && RunClass(OpenRun(names, run, n - 1)) == Some(cls) then 1 else 0)
  }

  /** Number of runs of class `cls` in a whole circuit. */
  function RunsOfClass(names: seq<string>, cls: string): nat {
    ClosedOfClass(names, {}, cls, |names|)
  }

  /** Dropping the first gate: the block before a later position is read
      from the run the first gate leaves open. */
  lemma {:induction false} OpenRunShift(x: string, rest: seq<string>, run: set<string>, i: nat)
    requires i <= |rest|
    ensures OpenRun([x] + rest, run, i + 1) == OpenRun(rest, if IsPhaseName(x) then run + {x} else {}, i)
    decreases i
  {
    if i > 0 {
      OpenRunShift(x, rest, run, i - 1);
      assert ([x] + rest)[i] == rest[i - 1];
    }
  }

  lemma {:induction false} ClosedOfClassShift(x: string, rest: seq<string>, run: set<string>, cls: string, n: nat)
    requires n <= |rest|
    ensures ClosedOfClass([x] + rest, run, cls, n + 1)
         == (if !IsPhaseName(x) && RunClass(run) == Some(cls) then 1 else 0)
            + ClosedOfClass(rest, if IsPhaseName(x) then run + {x} else {}, cls, n)
    decreases n
  {
    if n > 0 {
      ClosedOfClassShift(x, rest, run, cls, n - 1);
      OpenRunShift(x, rest, run, n - 1);
      assert ([x] + rest)[n] == rest[n - 1];
    }
  }

  /** What the tally counts under any name: one per run of that class that a
      later gate closes, plus one per occurrence unless the name is a phase
      gate. */
  lemma {:induction false} TallyCountsRuns(names: seq<string>, run: set<string>, gates: Counter, g: string)
    requires DistinctKeys(gates)
    ensures Count(Tally(names, run, gates), g)
         == Count(gates, g) + ClosedOfClass(names, run, g, |names|)
            + (if IsPhaseName(g) then 0 else Occurrences(names, g))
    decreases |names|
  {
    if |names| > 0 {
      var h, rest := names[0], names[1..];
      assert names == [h] + rest;
      ClosedOfClassShift(h, rest, run, g, |rest|);
      if IsPhaseName(h) {
        TallyCountsRuns(rest, run + {h}, gates, g);
      } else {
        TallyCountsRuns(rest, {}, Increment(Flush(gates, run), h), g);
      }
    }
  }

  /** The circuit's tally holds, under each run class, exactly the number of
      runs of that class, and under every other name that is not a phase
      gate its number of occurrences. */
  lemma CountGatesByClass(names: seq<string>, g: string)
    ensures Count(CountGates(names), g)
         == RunsOfClass(names, g) + (if IsPhaseName(g) then 0 else Occurrences(names, g))
  {
    TallyCountsRuns(names, {}, [], g);
  }

  /** Every gate that is not a phase gate adds one to the tally, and so does
      every run some later gate closes; the run open on entry counts once if
      the first gate closes it. */
  lemma {:induction false} TallyTotal(names: seq<string>, run: set<string>, gates: Counter)
    requires DistinctKeys(gates) && PhaseOnly(run)
    ensures Total(Tally(names, run, gates))
         == Total(gates) + NonPhaseCount(names) + ClosedRuns(names)
            + (if run != {} && |names| > 0 && !IsPhaseName(names[0]) then 1 else 0)
    decreases |names|
  {
    if |names| > 0 {
      var h := names[0];
      var rest := names[1..];
      if IsPhaseName(h) {
        TallyTotal(rest, run + {h}, gates);
        if |rest| > 0 {
          assert rest[0] == names[1];
        }
      } else {
        var flushed := Flush(gates, run);
        assert Total(flushed) == Total(gates) + (if run != {} then 1 else 0);
        TallyTotal(rest, {}, Increment(flushed, h));
        if |rest| > 0 {
          assert rest[0] == names[1];
        }
      }
    }
  }

  /** A run still open when the circuit ends is not counted: trailing phase
      gates leave the tally unchanged. */
  lemma {:induction false} TrailingRunIgnored(names: seq<string>, tail: seq<string>, run: set<string>, gates: Counter)
    requires DistinctKeys(gates)
    requires forall i :: 0 <= i < |tail| ==> IsPhaseName(tail[i])
    ensures Tally(names + tail, run, gates) == Tally(names, run, gates)
    decreases |names|
  {
    if |names| > 0 {
      var h := names[0];
      assert (names + tail)[1..] == names[1..] + tail;
      if IsPhaseName(h) {
        TrailingRunIgnored(names[1..], tail, run + {h}, gates);
      } else {
        TrailingRunIgnored(names[1..], tail, {}, Increment(Flush(gates, run), h));
      }
    } else {
      assert names + tail == tail;
      PhaseOnlyTally(tail, run, gates);
    }
  }

  lemma {:induction false} PhaseOnlyTally(tail: seq<string>, run: set<string>, gates: Counter)
    requires DistinctKeys(gates)
    requires forall i :: 0 <= i < |tail| ==> IsPhaseName(tail[i])
    ensures Tally(tail, run, gates) == gates
    decreases |tail|
  {
    if |tail| > 0 {
      PhaseOnlyTally(tail[1..], run + {tail[0]}, gates);
    }
  }

  /** Only which phase gates a run holds matters, not their order: swapping
      two adjacent phase gates leaves the tally unchanged. */
  lemma {:induction false} PhaseOrderIrrelevant(before: seq<string>, x: string, y: string, after: seq<string>, run: set<string>, gates: Counter)
    requires DistinctKeys(gates) && IsPhaseName(x) && IsPhaseName(y)
    ensures Tally(before + [x, y] + after, run, gates) == Tally(before + [y, x] + after, run, gates)
    decreases |before|
  {
    if |before| > 0 {
      var h := before[0];
      assert (before + [x, y] + after)[1..] == before[1..] + [x, y] + after;
      assert (before + [y, x] + after)[1..] == before[1..] + [y, x] + after;
      if IsPhaseName(h) {
        PhaseOrderIrrelevant(before[1..], x, y, after, run + {h}, gates);
      } else {
        PhaseOrderIrrelevant(before[1..], x, y, after, {}, Increment(Flush(gates, run), h));
      }
    } else {
      assert before + [x, y] + after == [x, y] + after;
      assert before + [y, x] + after == [y, x] + after;
      assert ([x, y] + after)[1..][1..] == after;
      assert ([y, x] + after)[1..][1..] == after;
      assert run + {x} + {y} == run + {y} + {x};
    }
  }

  /** A small circuit: a T closed by CX counts once as T-like, and the
      trailing S is not counted. */
  lemma SmallCircuitCounts()
    ensures CountGates(["t", "cx", "s"]) == [("t_like", 1), ("cx", 1)]
  {
    assert RunClass({} + {"t"}) == Some("t_like");
    assert Tally(["cx", "s"], {} + {"t"}, []) == Tally(["s"], {}, [("t_like", 1), ("cx", 1)]);
  }

  /** With Cliffords commuted away, two T-like runs and one measurement cost
      `3 d + 2` rounds, whatever else the tally holds. */
  lemma SmallCircuitRounds(d: real)
    ensures NumRounds([("h", 1), ("t_like", 2), ("cx", 1), ("measure", 1)], CommuteCliffordsCost, d)
         == 3.0 * d + 2.0
  {
    var c: Counter := [("h", 1), ("t_like", 2), ("cx", 1), ("measure", 1)];
    CommuteCostOnlyCounts(c, d);
    assert Count(c, "t_like") == 2 && Count(c, "measure") == 1;
  }
}
