# Pauli-based compilation of Clifford+T circuits — a Dafny model

This project models the core of a compiler that turns a Clifford+T QASM
circuit into a sequence of Pauli-product rotations and measurements, pushes
every Clifford rotation (angle pi/2 or pi/4) to the end of the circuit so that
only pi/8 rotations and measurements remain, and estimates the error
correction rounds a circuit needs. It models these parts:

- the gate translator (`to_pauli_ops.py`). A QASM line becomes one to three
  records `(instruction, angle, paulis, cbit, condition)`. `get_index`
  reads register indices. `write_instruction` builds the joint Pauli string.
  `write_condition` writes the classical condition as text. The modules are
  `Translate` and `ConditionText`. Python's string operations are in `Text`.
- the commutation engine (`commute_paulis.py`). This covers the
  sixteen-entry commutation table (module `Pauli`), the reading of condition
  text and the update rules of `commuted_pauli_rotations`. It also covers
  `commute_cliffords_to_end` twice: as a recursive definition, and as the
  source's in-place index loops, which are proved to compute the same thing.
  The modules are `Commute` and `Instructions`.
- the phase folding of gridsynth output (`tools.py`). `apply_t_gates`
  reduces a T count modulo 8 to at most two phase gates. `apply_gate_seq`
  folds runs of T and S between H and X gates. Both return the gate list
  they would apply (module `TGates`).
- the counting layer of the resource estimate (`estimate_resources.py`).
  This covers the two cost tables and `num_rounds`. It also covers the loop
  that tallies gates and counts each maximal run of phase gates once, under
  the most expensive class it contains (module `Resources`).

Exceptions are values. `Wrappers` defines `Option` and `Result`, and
`Translate.Error` lists each exception the translator can raise.

The comments above the commutation table in `commute_paulis.py` disagree
with the table itself in two places. Where they disagree, the model follows
the table:

- The comment at `commute_paulis.py:22-27` says that commuting X past Z
  "provides a -1 phase". The entry at `commute_paulis.py:36` is
  `(False, 1, "y")`, with phase +1. So commuting a pi/4 X rotation past a
  pi/8 Z rotation gives `+8` with Y (`Commute.QuarterTurnPastEighthTurn`).
- The comment at `commute_paulis.py:18-20` says the third element is what the
  second Pauli becomes. For the pair (x, i), the entry at
  `commute_paulis.py:33` gives `x`, not the second Pauli `i`. In general a
  commuting pair (a, I) yields `a`.

Separately, the translator reads `sdg` and `tdg` lines as `s` and `t` (see
Findings).

## Model

| member | source | states |
|---|---|---|
| Pauli.CommutingRule | pauli_operations/commute_paulis.py:28-45 | A pair commutes exactly when one Pauli is I or they are equal. A commuting pair has sign +1 and yields its non-identity member. An anticommuting pair yields the third Pauli, with sign -1 exactly when it follows the cyclic order X, Y, Z. |
| Pauli.RuleAntisymmetric | pauli_operations/commute_paulis.py:28-45 | Swapping an anticommuting pair flips the sign and keeps the resulting Pauli. |
| Pauli.RuleTwiceIsHalfTurn | pauli_operations/commute_paulis.py:28-45 | Applying the anticommuting rule twice restores the original Pauli with overall sign -1. This is the sign flip the engine applies directly for a pi/2 Clifford. |
| Text.Drop | pauli_operations/commute_paulis.py:74 | `s[k:]` has length `max(len(s) - k, 0)`, and the dropped prefix plus the result gives back `s`. |
| Text.DropLast | pauli_operations/commute_paulis.py:74 | `s[:-k]` has length `max(len(s) - k, 0)`, and the result plus the last `k` characters gives back `s`. |
| Text.Mid | pauli_operations/to_pauli_ops.py:198 | `line[3:-2]` is the middle of the line between the two cut ends, and empty when the ends cross. |
| Text.SplitJoin | pauli_operations/commute_paulis.py:75 | `split` undoes `join` when no piece contains the separator's first character. |
| Text.SplitFindsSeparator | pauli_operations/to_pauli_ops.py:88-89 | A string that contains `[` splits into at least two pieces, so `parsed[1]` exists. |
| Text.Split | pauli_operations/commute_paulis.py:75 | `str.split` gives at least one piece, and joining the pieces with the separator gives back the string. |
| Text.ParseInt | pauli_operations/to_pauli_ops.py:91-95 | `int()` fails on the empty string, and reads a plain digit string as its decimal value. |
| Text.ParseIntNegative | pauli_operations/to_pauli_ops.py:91-95 | `int()` reads `-` followed by digits as the negated decimal value. |
| Text.ParseIntRejects | pauli_operations/to_pauli_ops.py:91-95 | `int()` raises on text that starts with anything other than whitespace, a digit or a sign. |
| Text.ParseIntToString | pauli_operations/to_pauli_ops.py:91-95 | `int(str(n)) == n` for every integer, including negative ones. |
| Text.IntToStringInjective | pauli_operations/to_pauli_ops.py:14 | Distinct integers are written as distinct decimal strings. |
| ConditionText.WriteCondition | pauli_operations/to_pauli_ops.py:9-15 | The condition text is empty exactly when the condition has no entries (the `""` default or an empty dictionary). |
| ConditionText.ParseClause | pauli_operations/commute_paulis.py:74 | A clause with no `=` character cannot be read: `clause.split("==")[1]` raises. |
| ConditionText.ParseClauses | pauli_operations/commute_paulis.py:73-76 | The dictionary comprehension succeeds exactly when every clause can be read. |
| ConditionText.ParseClausesKeys | pauli_operations/commute_paulis.py:73-76 | Every clause's bit is a key of the dictionary, and the last clause's value wins for its bit. |
| ConditionText.ParseConditions | pauli_operations/commute_paulis.py:72-78 | The empty condition string reads as the empty dictionary. |
| ConditionText.ParseOneClause | pauli_operations/commute_paulis.py:74 | A written clause `(k==v)` reads back as the pair of the decimal texts of `k` and `v`. |
| ConditionText.ConditionRoundTrip | pauli_operations/commute_paulis.py:72-78 | Reading back what `write_condition` (to_pauli_ops.py:9-15) wrote gives the dictionary with keys and values as decimal text, later entries winning. |
| ConditionText.RenderedKeys | pauli_operations/commute_paulis.py:73-76 | The read-back dictionary has no key that was not written. |
| ConditionText.RenderedLookup | pauli_operations/commute_paulis.py:73-76 | With distinct keys, every written key reads back with its own written value. |
| Translate.ToInt | pauli_operations/to_pauli_ops.py:95 | `int(text)` succeeds exactly when the text is a signed decimal, with its value. Otherwise it raises `NotAnInteger`. |
| Translate.GetIndex | pauli_operations/to_pauli_ops.py:88-95 | The only way `get_index` fails is `int()` raising on the text it selected. |
| Translate.GetIndexOfRegister | pauli_operations/to_pauli_ops.py:88-93 | `name[i]...` gives `i`, whatever follows the bracket, unless it is a measurement target in iterative mode. |
| Translate.GetIndexIterativeTarget | pauli_operations/to_pauli_ops.py:90-91 | In iterative mode a measurement target `cR[i]` gives the register number `R`, not `i`. |
| Translate.GetIndexWithoutBracket | pauli_operations/to_pauli_ops.py:94-95 | Text without a bracket gives the number after its first character. |
| Translate.Slot | pauli_operations/to_pauli_ops.py:55 | A Python index in `-n..n-1` denotes a position inside the list, counting negative indices from the end. |
| Translate.Assign | pauli_operations/to_pauli_ops.py:54-55 | The assignment loop keeps the list's length. |
| Translate.AssignSucceeds | pauli_operations/to_pauli_ops.py:54-55 | The loop succeeds exactly when every index is in range. Otherwise it raises `IndexError` for the first index that is not. |
| Translate.AssignUntouched | pauli_operations/to_pauli_ops.py:53-55 | A position that no rotation names keeps its value. |
| Translate.AssignLastWins | pauli_operations/to_pauli_ops.py:54-55 | A position holds the basis of the last rotation naming it. |
| Translate.Identity | pauli_operations/to_pauli_ops.py:53 | The initial joint string is I on every qubit. |
| Translate.WriteInstruction | pauli_operations/to_pauli_ops.py:53-58 | A record is written exactly when all indices are in range. It carries the given kind, angle, classical bit, the written condition and one Pauli per qubit. A failure names an offending index. |
| Translate.WriteInstructionPaulis | pauli_operations/to_pauli_ops.py:53-55 | Unnamed qubits are I, and each named qubit holds the basis of the last rotation naming it. |
| Translate.WriteOne | pauli_operations/to_pauli_ops.py:53-58 | One rotation gives its basis on that qubit and I everywhere else. |
| Translate.Emit | pauli_operations/to_pauli_ops.py:122-233 | A supported gate writes one to three records, each over all qubits and carrying the line's condition. Its failures are never `Unsupported`. |
| Translate.Single | pauli_operations/to_pauli_ops.py:122-148 | A one-qubit gate writes a single record with the requested angle. |
| Translate.Hadamard | pauli_operations/to_pauli_ops.py:158-181 | `h` writes three records, all pi/4. |
| Translate.ControlledX | pauli_operations/to_pauli_ops.py:196-221 | `cx` writes three records with angles pi/4, -pi/4 and -pi/4. |
| Translate.MeasureLine | pauli_operations/to_pauli_ops.py:222-233 | `measure` writes one measurement record with an empty angle. |
| Translate.ParseInstruction | pauli_operations/to_pauli_ops.py:122-235 | A line raises `ValueError(line)` exactly when no prefix test matches. Otherwise it gives one to three full-width records carrying the condition. |
| Translate.SingleQubitGateRecord | pauli_operations/to_pauli_ops.py:122-195 | The branch for each of `x`, `z`, `s`, `sdg`, `t` and `tdg` succeeds exactly when its index parses and is in range. It then gives one rotation: X for `x` and Z otherwise, by pi/2, pi/2, pi/4, -pi/4, pi/8 or -pi/8. The `sdg` and `tdg` branches are never reached from `parse_instruction` (`Translate.InverseBranchesUnreachable`). |
| Translate.HadamardRecords | pauli_operations/to_pauli_ops.py:158-181 | An `h` line succeeds exactly when its index is valid. It then gives pi/4 rotations X, Z, X on that qubit. |
| Translate.ControlTarget | pauli_operations/to_pauli_ops.py:204 | The joint `cx` string is Z on the control and X on the target, with X alone when both name the same qubit. |
| Translate.CxSucceeds | pauli_operations/to_pauli_ops.py:196-221 | `cx` records are written exactly when the line names two operands, both `get_index` calls succeed and both indices are in range. |
| Translate.CxRecords | pauli_operations/to_pauli_ops.py:196-221 | A `cx a,b;` line succeeds exactly when it has two operands that both parse and are in range. It then gives the joint pi/4 ZX rotation, then -pi/4 Z on the control, then -pi/4 X on the target. |
| Translate.MeasureRecord | pauli_operations/to_pauli_ops.py:222-233 | A line that does not split into two parts around ` -> ` raises. A line succeeds exactly when it splits into two parts, both indices parse and the qubit index is in range. It then gives Z on the measured qubit with the classical index. |
| Translate.Classify | pauli_operations/to_pauli_ops.py:122-222 | The branch chosen is one whose `startswith` test the line passes. |
| Translate.ClassifyNoneIffNoName | pauli_operations/to_pauli_ops.py:122-235 | No branch is chosen exactly when the line starts with none of the nine gate names, which is when `ValueError` is raised. |
| Translate.InverseBranchesUnreachable | pauli_operations/to_pauli_ops.py:140-195 | The `sdg` and `tdg` branches are never selected: such lines take the `s` and `t` branches. |
| Translate.NoMinusEighthTurn | pauli_operations/to_pauli_ops.py:122-235 | No record the translator writes has angle -8. |
| Translate.EmitAngles | pauli_operations/to_pauli_ops.py:122-233 | Every gate other than `tdg` writes no -pi/8 record. |
| Translate.SdgReadAsS | pauli_operations/to_pauli_ops.py:140-157 | An `sdg` line is written exactly as an `s` line: pi/4. |
| Translate.TdgReadAsT | pauli_operations/to_pauli_ops.py:182-195 | A `tdg` line is written exactly as a `t` line: pi/8. |
| Translate.ClassifyCorrected | pauli_operations/to_pauli_ops.py:140-195 | With the longer names tried first, `sdg` and `tdg` lines reach their own branches. |
| Translate.ParseInstructionCorrected | pauli_operations/to_pauli_ops.py:122-235 | The corrected translator raises `Unsupported` exactly when no test matches. |
| Translate.CorrectedInverseGates | pauli_operations/to_pauli_ops.py:149-195 | The corrected translator writes `sdg` as a -pi/4 and `tdg` as a -pi/8 Z rotation. It treats every other line as the source does. |
| Translate.XOnThirdQubit | pauli_operations/to_pauli_ops.py:122-130 | `x q[2];` on three qubits is one pi/2 rotation `I,I,X` with no condition. |
| Translate.SdgWrittenAsS | pauli_operations/to_pauli_ops.py:140-157 | `sdg q[0];` is written as pi/4 Z. The corrected translator gives -pi/4. |
| TGates.ApplyTGates | tools.py:202-240 | A T count becomes at most two gates. |
| TGates.ApplyTGatesPhase | tools.py:215-240 | The emitted gates carry exactly the count's phase modulo 8. They are empty exactly when the count is a multiple of 8. |
| TGates.ApplyTGatesShape | tools.py:215-240 | Only phase gates are emitted. Exactly `count mod 2` of them are T or T^-1. |
| TGates.ApplyTGatesInjective | tools.py:215-240 | Two counts give the same gates exactly when they agree modulo 8. |
| TGates.ApplyTGatesCanonical | tools.py:215-240 | Folding the emitted gates' own phase again reproduces them. |
| TGates.ApplyGateSeq | tools.py:243-279 | The sequence is applied exactly when every symbol is T, S, I, H or X. |
| TGates.ApplyGateSeqLoop | tools.py:261-279 | The source's one-symbol-at-a-time loop computes the same outcome as the fold. |
| TGates.Fold | tools.py:261-279 | Gates already applied are never taken back. A failure names a symbol of the input that is not T, S, I, H or X. |
| TGates.FoldSucceeds | tools.py:262-279 | The loop fails exactly on a sequence with an unrecognised symbol. It reports that symbol, and every symbol before it is recognised. |
| TGates.FoldIsSegments | tools.py:261-279 | With recognised symbols, the loop emits each segment's folded phase followed by its H or X, and the final segment's phase last. |
| TGates.ApplyGateSeqIsSegments | tools.py:261-279 | `apply_gate_seq` equals the segment-wise description. |
| TGates.SegmentsWeight | tools.py:261-279 | The segment-wise output carries the input's total T steps modulo 8. |
| TGates.ApplyGateSeqKeepsPhase | tools.py:261-279 | The gates applied carry the sequence's total phase modulo 8. |
| TGates.FoldExample | tools.py:243-279 | `TSHTTX` becomes Z, T^-1, H, S, X. |
| TGates.UnrecognisedExample | tools.py:270-278 | An unrecognised symbol raises after the pending T is applied. |
| Commute.Negated | pauli_operations/commute_paulis.py:186-190 | The complemented guard has the same bits, each value `(v + 1) % 2`. |
| Commute.ContradictingGuardsNotImplied | pauli_operations/commute_paulis.py:164-167 | A bit both guards fix to different values makes the Clifford's guard non-empty and neither guard implies the other. |
| Commute.BranchesIff | pauli_operations/commute_paulis.py:177-179 | `first_conditions and not (first <= second)` holds exactly when the guards contradict or the Clifford's guard names a bit the other does not. |
| Commute.CommuteFold | pauli_operations/commute_paulis.py:168-170 | When every position commutes, the XOR fold still says "commute". |
| Commute.PhaseFold | pauli_operations/commute_paulis.py:163-171 | The accumulated sign is always +1 or -1. |
| Commute.ConjugatedPaulis | pauli_operations/commute_paulis.py:168-172 | Each position of the rewritten string is the table's result for that position's pair. |
| Commute.CommuteFoldIsParity | pauli_operations/commute_paulis.py:161-170 | The XOR fold says "commute" exactly when an even number of positions anticommute. |
| Commute.PhaseFoldIsCyclicParity | pauli_operations/commute_paulis.py:163-171 | The product of signs is -1 exactly when an odd number of positions follow the cyclic order. |
| Commute.CommutedPauliRotations | pauli_operations/commute_paulis.py:161-215 | Contradicting guards or an even anticommuting count leave the instruction unchanged. Otherwise there are two updates exactly when the Clifford's guard is non-empty and not implied. A pi/2 Clifford flips the sign and keeps the Paulis. A pi/4 Clifford applies the angle's sign times the cyclic parity and the table results. A second update is the unchanged instruction under the complemented guard. |
| Commute.UpdateShape | pauli_operations/commute_paulis.py:173-215 | One update adds no conditions. Two updates add the Clifford's guard and its complement, and occur only when the guards do not contradict. |
| Commute.Replacements | pauli_operations/commute_paulis.py:243-258 | One or two instructions replace the passed one, keeping kind and classical bit and flipping at most the sign of the angle. Two replacements are the unchanged one under the complemented guard (inserted last, so first), then the rewritten one under the guard. |
| Commute.Sweep | pauli_operations/commute_paulis.py:237-259 | A sweep keeps the length or at most doubles it, and creates no Clifford. |
| Commute.CommuteToEnd | pauli_operations/commute_paulis.py:218-260 | The result holds no Clifford rotation. |
| Commute.CommuteToEndStep | pauli_operations/commute_paulis.py:232-260 | A leading Clifford at most doubles the rest's output. A leading non-Clifford adds exactly one instruction. |
| Commute.CommuteToEndLowerBound | pauli_operations/commute_paulis.py:232-260 | No non-Clifford instruction is lost: the output is at least as long as their number. |
| Commute.CommuteToEndUpperBound | pauli_operations/commute_paulis.py:232-260 | The output has at most `non-Cliffords * 2^Cliffords` instructions. |
| Commute.NoCliffordUnchanged | pauli_operations/commute_paulis.py:232-236 | A circuit without Cliffords is returned unchanged. |
| Commute.CommuteToEndIdempotent | pauli_operations/commute_paulis.py:218-260 | Running the pass twice gives the same result as once. |
| Commute.ApplyMerges | pauli_operations/commute_paulis.py:249-258 | An inserted instruction has the update's Paulis and conditions `{**t_conditions, **condition_updates}`: the union of keys, the update's value winning. With phase +1 or -1 it derives from the passed instruction. |
| Commute.ReplacementsDerived | pauli_operations/commute_paulis.py:246-258 | Every replacement keeps the kind, the classical bit and the angle's magnitude of the instruction it replaces. |
| Commute.SweepProvenance | pauli_operations/commute_paulis.py:237-259 | Every swept instruction derives from one of those it passed. |
| Commute.CommuteToEndProvenance | pauli_operations/commute_paulis.py:218-260 | Every output instruction derives from a non-Clifford input instruction. |
| Commute.UnconditionalCliffordsKeepSize | pauli_operations/commute_paulis.py:232-260 | With unconditional Cliffords, the output has exactly one instruction per non-Clifford input. |
| Commute.SweepKeepsSize | pauli_operations/commute_paulis.py:193-215 | An unconditional Clifford never splits what it passes. |
| Commute.BranchGuardsPartition | pauli_operations/commute_paulis.py:177-192 | When a one-bit guard splits an instruction, exactly one of the two replacements is active under any assignment of 0/1 bits where the original was active, and none otherwise. |
| Commute.BranchConditions | pauli_operations/commute_paulis.py:177-192 | A one-bit guard splits an instruction only when its bit is new. The replacements then add the complemented and the original bit value. |
| Commute.KeyIsNewWhenBranching | pauli_operations/commute_paulis.py:164-179 | A one-bit guard branches only when the passed instruction does not already constrain that bit. |
| Commute.NegatedBit | pauli_operations/commute_paulis.py:188 | The complement of a one-bit guard `v` is `1 - v`. |
| Commute.FreshGuardBranches | pauli_operations/commute_paulis.py:176-192 | A guarded pi/2 Clifford on a fresh bit splits an anticommuting instruction into two copies with the same Paulis, under the two values of the bit. |
| Commute.MultiBitComplementLosesCase | pauli_operations/commute_paulis.py:182-191 | With a two-bit guard, the two replacements miss an assignment under which the original was active. |
| Commute.TwoGuardedCliffordsGiveFourBranches | pauli_operations/commute_paulis.py:177-192 | Two guarded pi/2 Cliffords on different bits split one pi/8 rotation four ways. |
| Commute.QuarterTurnPastEighthTurn | pauli_operations/commute_paulis.py:218-260 | Commuting a pi/4 X rotation past a pi/8 Z rotation leaves one pi/8 Y rotation. |
| Commute.HalfTurnBeforeSameMeasurement | pauli_operations/commute_paulis.py:173-175 | A pi/2 X rotation before an X measurement disappears and leaves the measurement unchanged. |
| Commute.CommuteCliffordsToEndInPlace | pauli_operations/commute_paulis.py:232-260 | The source's backward index loop with in-place deletes and inserts computes the recursive definition, so its output holds no Clifford. |
| Commute.SweepInPlace | pauli_operations/commute_paulis.py:237-259 | The inner `while` loop leaves the prefix untouched and replaces the suffix by its sweep. |
| Commute.InsertAtCursor | pauli_operations/commute_paulis.py:246-258 | Inserting each update at the same index leaves them in reverse order. |
| Resources.Count | resource_estimates/estimate_resources.py:57 | A key never inserted counts 0. |
| Resources.Increment | resource_estimates/estimate_resources.py:65-71 | `+= 1` raises that key's count by one and leaves every other count unchanged. An existing key stays in place and a new one is appended. The keys stay distinct. |
| Resources.NumRounds | resource_estimates/estimate_resources.py:32-40 | Gates whose type is not in the cost table are skipped, so a circuit with no costed gate needs 0 rounds. |
| Resources.NumRoundsNonNegative | resource_estimates/estimate_resources.py:32-40 | With a non-negative table and distance, the rounds are non-negative. |
| Resources.NumRoundsAffine | resource_estimates/estimate_resources.py:32-40 | The rounds are affine in the distance: the summed coefficients times `d` plus the summed constants. |
| Resources.NumRoundsIncrement | resource_estimates/estimate_resources.py:32-40 | One more gate of a type adds exactly that type's `a * d + b`, or nothing when the type has no cost. |
| Resources.NumRoundsMonotone | resource_estimates/estimate_resources.py:32-40 | With a non-negative table, a larger distance never needs fewer rounds. |
| Resources.GateRoundsMonotone | resource_estimates/estimate_resources.py:37 | One gate's rounds grow with the distance. |
| Resources.TablesNonNegative | resource_estimates/estimate_resources.py:18-29 | Both cost tables have non-negative entries and exactly the listed gate types. |
| Resources.CommuteCostOnlyCounts | resource_estimates/estimate_resources.py:29-40 | With Cliffords commuted away, only T-like runs (`d + 1` each) and measurements (`d` each) cost. |
| Resources.CommuteSlope | resource_estimates/estimate_resources.py:29-40 | The distance coefficient of that table is the number of T-like runs plus measurements. |
| Resources.CommuteIntercept | resource_estimates/estimate_resources.py:29-40 | The constant term of that table is the number of T-like runs. |
| Resources.RunClass | resource_estimates/estimate_resources.py:63-69 | A finished run is counted under a run class exactly when it is non-empty. |
| Resources.RunClassIsMostExpensive | resource_estimates/estimate_resources.py:63-69 | A run is counted under the most expensive class among its gates (T-like above S-like above Z): no gate ranks above the class, and some gate attains it. |
| Resources.RunClassUnion | resource_estimates/estimate_resources.py:60-69 | Merging two runs gives the more expensive of their two classes. |
| Resources.Tally | resource_estimates/estimate_resources.py:56-71 | The tally keeps distinct keys. |
| Resources.Flush | resource_estimates/estimate_resources.py:63-70 | Closing a run adds one to its class and to nothing else, and nothing for an empty run. The keys stay distinct. |
| Resources.CountGatesLoop | resource_estimates/estimate_resources.py:56-71 | The source's loop over the circuit computes the recursive tally. |
| Resources.TallyCountsGate | resource_estimates/estimate_resources.py:58-71 | A gate that is neither a phase gate nor a run class is counted once per occurrence. A phase gate name (`s`, `sdg`, `t` or `tdg`) is never counted itself. |
| Resources.TallyCountsRuns | resource_estimates/estimate_resources.py:56-71 | Each count is its starting count, plus the runs of that class that a non-phase gate closes (counted by an independent position-wise definition), plus its occurrences when it is not a phase gate. |
| Resources.CountGatesByClass | resource_estimates/estimate_resources.py:56-71 | The counter of a circuit holds, for each name, the closed runs whose most expensive class it is, plus its own occurrences when it is not a phase gate. |
| Resources.TallyTotal | resource_estimates/estimate_resources.py:56-71 | The tally's total is one per non-phase gate plus one per run that a non-phase gate closes. |
| Resources.TrailingRunIgnored | resource_estimates/estimate_resources.py:56-71 | Phase gates after the last non-phase gate add nothing. |
| Resources.PhaseOnlyTally | resource_estimates/estimate_resources.py:60-61 | Phase gates alone never change the tally. |
| Resources.PhaseOrderIrrelevant | resource_estimates/estimate_resources.py:60-61 | Swapping two adjacent phase gates never changes the tally. |
| Resources.SmallCircuitCounts | resource_estimates/estimate_resources.py:56-71 | `t, cx, s` tallies one T-like run and one CX. The trailing `s` is not counted. |
| Resources.SmallCircuitRounds | resource_estimates/estimate_resources.py:29-40 | Two T-like runs and one measurement cost `3d + 2` rounds in the commuted model. The H and CX cost nothing there. |

## Left out

- The command-line entry points are not modelled, for the same reason as file I/O: they read and write files. This covers the `__main__` blocks of `to_pauli_ops.py` and `commute_paulis.py`, `parse_paulis_file` and the CSV line layout. The translator and `write_instruction` return their records instead of writing lines.
- `IS_ITERATIVE` is computed from the command line in the source. Here it is the parameter `isIterative`.
- Conditions in the engine are maps from integers to integers. They are not dictionaries of strings. The text layer proves that `parse_conditions` reads back the decimal text `write_condition` wrote (`ConditionText.ConditionRoundTrip`). Engine conditions are therefore the decoded integers. Two texts naming the same integer, such as `01` and `1`, would differ in the source.
- `int()` is modelled on ASCII decimal text with surrounding ASCII whitespace and a sign. Underscores between digits and non-ASCII digits or spaces are left out.
- Quantum semantics are not modelled: the unitaries, and whether the rewrites preserve them. Only the bookkeeping the code performs is stated.
- Qiskit circuit construction is not modelled, because it is a foreign library. This covers `QuantumCircuit.from_qasm_file` and the `qc.t(...)`-style calls. `apply_t_gates` and `apply_gate_seq` return the list of gates they would apply. The gridsynth bytes are read as characters.
- The rest of `tools.py` is not modelled. The gridsynth string builders (lines 8-153) call an external program with floating-point angles. `print_counts` (lines 156-199) only prints. The Trotterisation helpers (lines 282 onwards) build Qiskit circuits.
- `overall_logical_error` (estimate_resources.py:43-50) is not modelled because it is floating-point exponentiation. The same goes for the `brentq` root search and the factory table search of the main block.
- Python's `Counter` is modelled as an insertion-ordered list of items. Its printing and ordering are not used by the counting.
- `Commute.BranchGuardsPartition`: proved only for a one-bit guard with 0/1 values. The source documents that the Clifford's conditions should hold one entry (commute_paulis.py:142-143). With more bits, the complement-every-bit branch misses cases, as `Commute.MultiBitComplementLosesCase` shows.
- `Commute.BranchConditions`: stated for a one-bit guard with value 0 or 1, for the same reason.
- `TGates.ApplyTGates`: its own contract states only the length bound. The phase, shape, injectivity and canonical-form properties are the lemmas `ApplyTGatesPhase`, `ApplyTGatesShape`, `ApplyTGatesInjective` and `ApplyTGatesCanonical`.
- `Resources.Tally`: its own contract states only that keys stay distinct. What it counts is in `TallyCountsRuns`, `CountGatesByClass`, `TallyCountsGate`, `TallyTotal`, `TrailingRunIgnored` and `PhaseOrderIrrelevant`.
- `Resources.NumRounds`: the sum is over exact reals. Python sums floats, so rounding of the products and of the running sum is not modelled.
- `Resources.NumRounds`: its own contract states only that a circuit with no costed gate needs no rounds. Affinity, increments, monotonicity and non-negativity are the lemmas `NumRoundsAffine`, `NumRoundsIncrement`, `NumRoundsMonotone` and `NumRoundsNonNegative`.
- `ConditionText.ParseClause`: its own contract states only the failure on a clause with no `=`. Reading a written clause back is `ParseOneClause`.
- `Commute.Apply`, `Commute.Contradicts` and `Commute.Branches` have no contract of their own. What they compute is stated by `ApplyMerges`, `ContradictingGuardsNotImplied` and `BranchesIff`.

## Findings

| source | as written | input that shows it | evidently intended | confidence | as-written member | corrected member |
|---|---|---|---|---|---|---|
| pauli_operations/to_pauli_ops.py:140-195 | `startswith("s")` comes before `startswith("sdg")`, and `startswith("t")` before `startswith("tdg")`. Every `sdg` line becomes a pi/4 rotation and every `tdg` line a pi/8 rotation, and the -4 and -8 branches are dead. | `sdg q[0];` on one qubit gives `rotate,4,z` | `sdg` gives a -pi/4 and `tdg` a -pi/8 Z rotation | not executed | Translate.SdgReadAsS | Translate.CorrectedInverseGates |
