/** Folding a gridsynth gate sequence onto one qubit: runs of T and S
    symbols are accumulated as a count of pi/4 phase steps (T = 1, S = 2) and
    written out, modulo 8, as at most two phase gates each time an H or X
    symbol (or the end of the sequence) is reached. */
module TGates {

  /** The gates the folding emits. */
  datatype Gate = T | S | Z | Sdg | Tdg | H | X

  predicate IsPhase(g: Gate) {
    g != H && g != X
  }

  /** The phase of a phase gate in units of pi/4 (T^k), as an element of Z/8;
      H and X contribute no phase step. */
  function Weight(g: Gate): nat {
    match g
    case T => 1
    case S => 2
    case Z => 4
    case Sdg => 6
    case Tdg => 7
    case H => 0
    case X => 0
  }

  function TotalWeight(gs: seq<Gate>): nat
    decreases |gs|
  {
    if |gs| == 0 then 0 else Weight(gs[0]) + TotalWeight(gs[1..])
  }

  /** Number of T-type gates (T or T^-1), the expensive ones. */
  function TTypeCount(gs: seq<Gate>): nat
    decreases |gs|
  {
    if |gs| == 0 then 0 else (if gs[0] == T || gs[0] == Tdg then 1 else 0) + TTypeCount(gs[1..])
  }

  /** `apply_t_gates`: `t_count & 7`, which for every integer is the
      non-negative remainder modulo 8, selects at most two phase gates whose
      phase is that many T steps; a multiple of 8 emits nothing. */
  function ApplyTGates(tCount: int): (r: seq<Gate>)
    ensures |r| <= 2
  {
    var k := tCount % 8;
    if k == 1 then [T]
    else if k == 2 then [S]
    else if k == 3 then [Z, Tdg]
    else if k == 4 then [Z]
    else if k == 5 then [Z, T]
    else if k == 6 then [Sdg]
    else if k == 7 then [Tdg]
    else []
  }

  /** The emitted gates carry exactly the requested phase modulo 8, and
      nothing is emitted for a whole turn. */
  lemma ApplyTGatesPhase(tCount: int)
    ensures ApplyTGates(tCount) == [] <==> tCount % 8 == 0
    ensures TotalWeight(ApplyTGates(tCount)) % 8 == tCount % 8
  {
    var k := tCount % 8;
    if k == 3 {
      assert [Z, Tdg][1..] == [Tdg];
    } else if k == 5 {
      assert [Z, T][1..] == [T];
    }
  }

  /** The emitted gates are all phase gates, and an odd count needs exactly
      one T-type gate while an even one needs none. */
  lemma ApplyTGatesShape(tCount: int)
    ensures forall j :: 0 <= j < |ApplyTGates(tCount)| ==> IsPhase(ApplyTGates(tCount)[j])
    ensures TTypeCount(ApplyTGates(tCount)) == tCount % 2
  {
    ModEightParity(tCount);
    var k := tCount % 8;
    if k == 3 {
      assert [Z, Tdg][1..] == [Tdg];
    } else if k == 5 {
      assert [Z, T][1..] == [T];
    }
  }

  lemma ModEightParity(n: int)
    ensures (n % 8) % 2 == n % 2
  {
  }

  /** Two counts emit the same gates exactly when they agree modulo 8. */
  lemma ApplyTGatesInjective(m: int, n: int)
    ensures ApplyTGates(m) == ApplyTGates(n) <==> m % 8 == n % 8
  {
  }

  /** The emitted gates are a canonical form: folding their own phase again
      reproduces them. */
  lemma ApplyTGatesCanonical(n: int)
    ensures ApplyTGates(TotalWeight(ApplyTGates(n))) == ApplyTGates(n)
  {
    ApplyTGatesPhase(n);
    ApplyTGatesInjective(TotalWeight(ApplyTGates(n)), n);
  }

  lemma {:induction false} TotalWeightAppend(a: seq<Gate>, b: seq<Gate>)
    ensures TotalWeight(a + b) == TotalWeight(a) + TotalWeight(b)
    decreases |a|
  {
    if |a| > 0 {
      assert (a + b)[1..] == a[1..] + b;
      TotalWeightAppend(a[1..], b);
    } else {
      assert a + b == b;
    }
  }

  // ---------------------------------------------------------------------
  // apply_gate_seq
  // ---------------------------------------------------------------------

  /** The symbols that add to the pending phase count: T one step, S two,
      I none. */
  predicate IsPhaseSymbol(c: char) {
    c == 'T' || c == 'S' || c == 'I'
  }

  /** The symbols that are emitted themselves, after the pending phase. */
  predicate IsBreak(c: char) {
    c == 'H' || c == 'X'
  }

  predicate Recognised(c: char) {
    IsPhaseSymbol(c) || IsBreak(c)
  }

  predicate AllRecognised(s: string) {
    forall i :: 0 <= i < |s| ==> Recognised(s[i])
  }

  function SymbolWeight(c: char): nat {
    if c == 'T' then 1 else if c == 'S' then 2 else 0
  }

  /** The T steps a stretch of symbols asks for. */
  function InputWeight(s: string): nat
    decreases |s|
  {
    if |s| == 0 then 0 else SymbolWeight(s[0]) + InputWeight(s[1..])
  }

  function BreakGate(c: char): Gate
    requires IsBreak(c)
  {
    if c == 'H' then H else X
  }

  /** What the loop leaves behind: the gates applied, or the unrecognised
      symbol that raised `ValueError` with the gates already applied to the
      circuit by then. */
  datatype Outcome = Applied(gates: seq<Gate>) | Unrecognised(symbol: char, emitted: seq<Gate>)

  /** The gates on the circuit once the loop has stopped, either way. */
  function Written(o: Outcome): seq<Gate> {
    match o
    case Applied(gates) => gates
    case Unrecognised(_, emitted) => emitted
  }

  /** The loop of `apply_gate_seq` from some point on, with `pending` T steps
      not yet written and `emitted` the gates applied so far. An unrecognised
      symbol first flushes the pending steps, then raises. */
  function Fold(symbols: string, pending: int, emitted: seq<Gate>): (r: Outcome)
    ensures emitted <= Written(r)
    ensures r.Unrecognised? ==> r.symbol in symbols && !Recognised(r.symbol)
    decreases |symbols|
  {
    if |symbols| == 0 then Applied(emitted + ApplyTGates(pending))
    else
      var c := symbols[0];
      if c == 'T' then Fold(symbols[1..], pending + 1, emitted)
      else if c == 'S' then Fold(symbols[1..], pending + 2, emitted)
      else if c == 'I' then Fold(symbols[1..], pending, emitted)
      else
        var flushed := emitted + ApplyTGates(pending);
        if c == 'H' then Fold(symbols[1..], 0, flushed + [H])
        else if c == 'X' then Fold(symbols[1..], 0, flushed + [X])
        else Unrecognised(c, flushed)
  }

  /** `apply_gate_seq` on the byte string read as characters. */
  function ApplyGateSeq(symbols: string): (r: Outcome)
    ensures r.Applied? <==> AllRecognised(symbols)
  {
    FoldSucceeds(symbols, 0, []);
    Fold(symbols, 0, [])
  }

  /** The loop as the source writes it, one symbol at a time. */
  method ApplyGateSeqLoop(symbols: string) returns (outcome: Outcome)
    ensures outcome == ApplyGateSeq(symbols)
  {
    var tCount := 0;
    var emitted: seq<Gate> := [];
    var i := 0;
    while i < |symbols|
      invariant 0 <= i <= |symbols|
      invariant Fold(symbols[i..], tCount, emitted) == Fold(symbols, 0, [])
    {
      var c := symbols[i];
      assert symbols[i..][1..] == symbols[i + 1..];
      if c == 'T' {
        tCount := tCount + 1;
      } else if c == 'S' {
        tCount := tCount + 2;
      } else if c == 'I' {
      } else {
        emitted := emitted + ApplyTGates(tCount);
        tCount := 0;
        if c == 'H' {
          emitted := emitted + [H];
        } else if c == 'X' {
          emitted := emitted + [X];
        } else {
          return Unrecognised(c, emitted);
        }
      }
      i := i + 1;
    }
    emitted := emitted + ApplyTGates(tCount);
    return Applied(emitted);
  }

  /** The first position holding H or X, or the length when there is none. */
  function FirstBreak(s: string): (k: nat)
    ensures k <= |s|
    ensures forall j :: 0 <= j < k ==> !IsBreak(s[j])
    ensures k < |s| ==> IsBreak(s[k])
    decreases |s|
  {
    if |s| == 0 then 0 else if IsBreak(s[0]) then 0 else 1 + FirstBreak(s[1..])
  }

  /** The gates a sequence of recognised symbols should become, segment by
      segment: the phase of each stretch between H/X symbols, reduced, then
      the H or X itself; `pending` steps carried in from before. */
  function Segments(s: string, pending: int): seq<Gate>
    requires AllRecognised(s)
    decreases |s|
  {
    var k := FirstBreak(s);
    if k == |s| then ApplyTGates(pending + InputWeight(s))
    else
      RecognisedSuffix(s, k + 1);
      ApplyTGates(pending + InputWeight(s[..k])) + [BreakGate(s[k])] + Segments(s[k + 1..], 0)
  }

  lemma RecognisedSuffix(s: string, m: nat)
    requires AllRecognised(s) && m <= |s|
    ensures AllRecognised(s[m..])
  {
    var rest := s[m..];
    forall i | 0 <= i < |rest| ensures Recognised(rest[i]) { assert rest[i] == s[m + i]; }
  }

  /** The loop fails exactly on a sequence with an unrecognised symbol, and
      then names the first one. */
  lemma {:induction false} FoldSucceeds(s: string, pending: int, emitted: seq<Gate>)
    ensures Fold(s, pending, emitted).Applied? <==> AllRecognised(s)
    ensures Fold(s, pending, emitted).Unrecognised? ==>
      exists k :: 0 <= k < |s| && s[k] == Fold(s, pending, emitted).symbol
        && !Recognised(s[k]) && AllRecognised(s[..k])
    decreases |s|
  {
    if |s| > 0 {
      var c := s[0];
      var rest := s[1..];
      var flushed := emitted + ApplyTGates(pending);
      var next := if c == 'T' then pending + 1 else if c == 'S' then pending + 2 else if c == 'I' then pending else 0;
      var nextEmitted := if IsPhaseSymbol(c) then emitted else if c == 'H' then flushed + [H] else flushed + [X];
      if Recognised(c) {
        assert Fold(s, pending, emitted) == Fold(rest, next, nextEmitted);
        FoldSucceeds(rest, next, nextEmitted);
        assert AllRecognised(s) <==> AllRecognised(rest) by {
          if AllRecognised(rest) {
            forall i | 0 <= i < |s| ensures Recognised(s[i]) { if i > 0 { assert s[i] == rest[i - 1]; } }
          }
          if AllRecognised(s) {
            forall i | 0 <= i < |rest| ensures Recognised(rest[i]) { assert rest[i] == s[i + 1]; }
          }
        }
        if Fold(rest, next, nextEmitted).Unrecognised? {
          var k :| 0 <= k < |rest| && rest[k] == Fold(rest, next, nextEmitted).symbol
            && !Recognised(rest[k]) && AllRecognised(rest[..k]);
          assert s[k + 1] == rest[k];
          var before := s[..k + 1];
          forall i | 0 <= i < |before| ensures Recognised(before[i]) {
            if i > 0 { assert before[i] == rest[..k][i - 1]; }
          }
        }
      } else {
        assert s[..0] == [];
      }
    }
  }

  /** With only recognised symbols the loop emits exactly the segment-wise
      reduction: it carries the pending steps across I, T and S and flushes
      them at each H or X and at the end. */
  lemma {:induction false} FoldIsSegments(s: string, pending: int, emitted: seq<Gate>)
    requires AllRecognised(s)
    ensures Fold(s, pending, emitted) == Applied(emitted + Segments(s, pending))
    decreases |s|, 1
  {
    if |s| == 0 {
      assert Segments(s, pending) == ApplyTGates(pending + 0);
    } else if IsBreak(s[0]) {
      FoldIsSegmentsAtBreak(s, pending, emitted);
    } else {
      FoldIsSegmentsAtPhase(s, pending, emitted);
    }
  }

  lemma {:induction false} FoldIsSegmentsAtBreak(s: string, pending: int, emitted: seq<Gate>)
    requires AllRecognised(s) && |s| > 0 && IsBreak(s[0])
    ensures Fold(s, pending, emitted) == Applied(emitted + Segments(s, pending))
    decreases |s|, 0
  {
    var c := s[0];
    var rest := s[1..];
    RecognisedSuffix(s, 1);
    var emittedNext := emitted + ApplyTGates(pending) + [BreakGate(c)];
    calc {
      Fold(s, pending, emitted);
      { FoldAtBreak(s, pending, emitted); }
      Fold(rest, 0, emittedNext);
      { FoldIsSegments(rest, 0, emittedNext); }
      Applied(emittedNext + Segments(rest, 0));
      { assert emittedNext + Segments(rest, 0)
            == emitted + (ApplyTGates(pending) + [BreakGate(c)] + Segments(rest, 0)); }
      Applied(emitted + (ApplyTGates(pending) + [BreakGate(c)] + Segments(rest, 0)));
      { SegmentsAtBreak(s, pending); }
      Applied(emitted + Segments(s, pending));
    }
  }

  lemma {:induction false} FoldIsSegmentsAtPhase(s: string, pending: int, emitted: seq<Gate>)
    requires AllRecognised(s) && |s| > 0 && !IsBreak(s[0])
    ensures Fold(s, pending, emitted) == Applied(emitted + Segments(s, pending))
    decreases |s|, 0
  {
    var rest := s[1..];
    RecognisedSuffix(s, 1);
    var w := SymbolWeight(s[0]);
    calc {
      Fold(s, pending, emitted);
      { FoldAtPhase(s, pending, emitted); }
      Fold(rest, pending + w, emitted);
      { FoldIsSegments(rest, pending + w, emitted); }
      Applied(emitted + Segments(rest, pending + w));
      { SegmentsAtPhase(s, pending); }
      Applied(emitted + Segments(s, pending));
    }
  }

  /** One step of the loop at an H or X: flush, then emit the gate. */
  lemma FoldAtBreak(s: string, pending: int, emitted: seq<Gate>)
    requires |s| > 0 && IsBreak(s[0])
    ensures Fold(s, pending, emitted) == Fold(s[1..], 0, emitted + ApplyTGates(pending) + [BreakGate(s[0])])
  {
  }

  /** One step of the loop at a T, S or I: the steps join the pending count. */
  lemma FoldAtPhase(s: string, pending: int, emitted: seq<Gate>)
    requires |s| > 0 && IsPhaseSymbol(s[0])
    ensures Fold(s, pending, emitted) == Fold(s[1..], pending + SymbolWeight(s[0]), emitted)
  {
  }

  /** An H or X first: the pending steps, then the gate, then the rest afresh. */
  lemma SegmentsAtBreak(s: string, pending: int)
    requires AllRecognised(s) && |s| > 0 && IsBreak(s[0])
    ensures AllRecognised(s[1..]) &&
            Segments(s, pending) == ApplyTGates(pending) + [BreakGate(s[0])] + Segments(s[1..], 0)
  {
    RecognisedSuffix(s, 1);
    assert FirstBreak(s) == 0;
    assert s[..0] == [];
    assert InputWeight(s[..0]) == 0;
  }

  /** A T, S or I first: its steps join the pending count. */
  lemma SegmentsAtPhase(s: string, pending: int)
    requires AllRecognised(s) && |s| > 0 && !IsBreak(s[0])
    ensures AllRecognised(s[1..]) &&
            Segments(s, pending) == Segments(s[1..], pending + SymbolWeight(s[0]))
  {
    var rest := s[1..];
    RecognisedSuffix(s, 1);
    var k := FirstBreak(s);
    FirstBreakAfterPhase(s);
    if k == |s| {
      assert InputWeight(s) == SymbolWeight(s[0]) + InputWeight(rest);
    } else {
      PrefixWeightStep(s, k);
      DropAfterFirst(s, k);
    }
  }

  lemma DropAfterFirst(s: string, k: nat)
    requires 1 <= k < |s|
    ensures s[k + 1..] == s[1..][k..]
  {
  }

  lemma FirstBreakAfterPhase(s: string)
    requires |s| > 0 && !IsBreak(s[0])
    ensures FirstBreak(s[1..]) == FirstBreak(s) - 1
  {
  }

  lemma PrefixWeightStep(s: string, k: nat)
    requires 1 <= k <= |s|
    ensures InputWeight(s[..k]) == SymbolWeight(s[0]) + InputWeight(s[1..][..k - 1])
  {
    assert s[..k][1..] == s[1..][..k - 1];
  }

  lemma ApplyGateSeqIsSegments(s: string)
    requires AllRecognised(s)
    ensures ApplyGateSeq(s) == Applied(Segments(s, 0))
  {
    FoldIsSegments(s, 0, []);
    assert [] + Segments(s, 0) == Segments(s, 0);
  }

  /** Each segment's gates carry its T steps modulo 8, so the whole output
      carries the whole input's phase modulo 8. */
  lemma {:induction false} SegmentsWeight(s: string, pending: nat)
    requires AllRecognised(s)
    ensures TotalWeight(Segments(s, pending)) % 8 == (pending + InputWeight(s)) % 8
    decreases |s|, 1
  {
    if |s| == 0 {
      ApplyTGatesPhase(pending + InputWeight(s));
    } else if IsBreak(s[0]) {
      SegmentsWeightAtBreak(s, pending);
    } else {
      SegmentsAtPhase(s, pending);
      SegmentsWeight(s[1..], pending + SymbolWeight(s[0]));
    }
  }

  lemma {:induction false} SegmentsWeightAtBreak(s: string, pending: nat)
    requires AllRecognised(s) && |s| > 0 && IsBreak(s[0])
    ensures TotalWeight(Segments(s, pending)) % 8 == (pending + InputWeight(s)) % 8
    decreases |s|, 0
  {
    SegmentsAtBreak(s, pending);
    var head := ApplyTGates(pending);
    var mid := [BreakGate(s[0])];
    var tail := Segments(s[1..], 0);
    TotalWeightAppend(head + mid, tail);
    TotalWeightAppend(head, mid);
    assert TotalWeight(mid) == 0;
    ApplyTGatesPhase(pending);
    SegmentsWeight(s[1..], 0);
    ModSum(TotalWeight(head), pending, TotalWeight(tail), InputWeight(s[1..]));
  }

  /** Sums of numbers that agree modulo 8 agree modulo 8. */
  lemma ModSum(a: int, a': int, b: int, b': int)
    requires a % 8 == a' % 8 && b % 8 == b' % 8
    ensures (a + b) % 8 == (a' + b') % 8
  {
    assert a - a' == 8 * ((a - a') / 8);
    assert b - b' == 8 * ((b - b') / 8);
    assert (a + b) - (a' + b') == 8 * ((a - a') / 8 + (b - b') / 8);
  }

  lemma {:induction false} InputWeightSplit(s: string, k: nat)
    requires k < |s|
    ensures InputWeight(s) == InputWeight(s[..k]) + SymbolWeight(s[k]) + InputWeight(s[k + 1..])
    decreases k
  {
    if k > 0 {
      InputWeightSplit(s[1..], k - 1);
      assert s[..k][1..] == s[1..][..k - 1];
      assert s[1..][k - 1] == s[k];
      assert s[1..][k..] == s[k + 1..];
    } else {
      assert s[..0] == [];
      assert s[1..] == s[k + 1..];
    }
  }

  /** For a recognised sequence, the applied gates' total phase equals the
      input's T steps modulo 8. */
  lemma ApplyGateSeqKeepsPhase(s: string)
    requires AllRecognised(s)
    ensures TotalWeight(ApplyGateSeq(s).gates) % 8 == InputWeight(s) % 8
  {
    ApplyGateSeqIsSegments(s);
    SegmentsWeight(s, 0);
  }

  /** Worked example: `TSHTTX` is T^3, H, T^2, X: Z and T^-1, then H, then S,
      then X, with nothing left over. */
  lemma FoldExample()
    ensures ApplyGateSeq("TSHTTX") == Applied([Z, Tdg, H, S, X])
  {
  }

  /** An unrecognised symbol raises after the pending steps are applied. */
  lemma UnrecognisedExample()
    ensures ApplyGateSeq("TQ") == Unrecognised('Q', [T])
  {
  }
}
