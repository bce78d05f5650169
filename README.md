# TCPC model builders and solution decoders

The repository solves the table-composition problem (TCPC). N students, each
with a list of preferred classmates, are seated at tables of two and of three.
A pair table seats students who like each other; a triple table is weighted by
how many of its members like the other two. Thirteen Python files build the
same kind of model, each in its own way:

- the five solver classes `sat_solver.py`, `fully_sat-based_solver.py`,
  `rc2_solver_tcpc.py`, `rc2_solver_timeout.py` and `rc2_tcpc.py` (CNF or
  WCNF for Minisat or RC2);
- the CP-SAT class `cpsat_solver.py`;
- the scripts `rc2_solver_minimizing.py`, `cp-sat_minimizing.py` and
  `cp-sat_maximizing.py`, whose students are numbered from 1;
- the scripts `rc2_solver.py`, `mip_solver.py` and `cp-sat_solver.py`, whose
  students are numbered from 0;
- `temp5.py`, a class `TCPCModel` that names its variables as it goes.

Each of them builds:

- one Boolean variable per pair table `x_ij`, per triple table `x_ijk` and
  per student `y_i` (the student sits at a pair table);
- an exactly-one constraint over the tables of each student;
- the validity clauses: a chosen pair sets both flags, a chosen triple clears
  all three;
- a cardinality constraint on the flags;
- soft clauses or an objective from the preference weights.

They then decode a solution back into groups of students and add up their
weight.

The model represents:

- variables as `Var = X(Table) | Y(student)`, and the three id dictionaries as
  one `map<Var, int>`;
- constraints as `Clause`, `AtMost` and `Exactly` over literals;
- soft clauses as `Soft(lits, weight)`;
- linear objectives as `Term(coefficient, id)`;
- an assignment as the set of true ids.

Weights are kept in eighths, so the pair weight 2 is 16 and the triple weight
`3 * wi * wj * wk / 8` is `3 * wi * wj * wk`. Every build loop of the source
is a method with a loop, proved equal to a specification function. The
meaning of each specification function is proved as an if-and-only-if over
all assignments. The solver classes and temp5's `TCPCModel` are Dafny classes
whose methods update their fields.

Modules:

- `Tables`, `Membership`, `Grouped`, `Seating`, `Weights`, `Cnf`: tables, the
  creation orders, the membership lists, weights and constraint semantics.
- `Encoding`: the hard constraints and the soft encodings, and what they mean.
- `Builders`: the build loops shared by the 1-indexed files.
- `Decoding`, `Extraction`, `Rows`: decoding a solution and re-scoring it.
- `Solver`: the shared class of the five solver files.
- `CpSat`: `cpsat_solver.py`.
- `Scripts`: the 1-indexed scripts.
- `ZeroIndexed`, `ZeroScripts`: the 0-indexed scripts.
- `Temp5`: `temp5.py`.

## Model

| member | source | states |
|---|---|---|
| Builders.NumberVariables | rc2_solver_tcpc.py:21-29 | the counter loop gives each pair (i, j), then each triple (i, j, k), then y_i of student i the next id from 1; the ids are the numbering of the interleaved creation order and end at C(N,2)+C(N,3)+N+1 |
| Builders.NumberBlock | rc2_solver_minimizing.py:34-43 | one outer iteration numbers the variables led by student i on from the current counter |
| Builders.NumberPairs | rc2_solver_minimizing.py:35-37 | the pair loop numbers (i, j) for j > i on from the counter |
| Builders.NumberTriples | rc2_solver_minimizing.py:39-41 | the inner triple loop numbers (i, j, k) for k > j on from the counter |
| Builders.NumberTripleBlock | rc2_solver_minimizing.py:38-41 | the triple loops number every (i, j, k) led by i on from the counter |
| Builders.PairwiseLoop | rc2_solver_minimizing.py:59-61 | the nested loop emits [-a, -b] for every two positions of the list, in order |
| Builders.ExactlyOneLoop | rc2_solver_tcpc.py:37-44 | one student's constraints are the encoding of exactly-one chosen by the file: CardEnc.atmost plus the clause, the clause plus pairwise exclusions, or sum == 1 |
| Builders.SingleAssignmentLoop | rc2_solver_tcpc.py:37-61 | the loop over students 1..N emits the exactly-one constraints of every membership list |
| Builders.AssignmentStep | rc2_solver_tcpc.py:39-44 | one student's constraints extend the constraints of the students before |
| Builders.ValidityLoop | rc2_solver_tcpc.py:63-73 | the loops emit [-x, y_i], [-x, y_j] for every pair and then [-x, -y_i], [-x, -y_j], [-x, -y_k] for every triple |
| Builders.ValidityStep | rc2_solver_tcpc.py:63-73 | one table's clauses extend the clauses of the tables before |
| Builders.CalculateWeights | rc2_solver_tcpc.py:84-112 | the returned dictionaries hold exactly the candidate tables, each with its weight 2*wi*wj or 3*wi*wj*wk/8 read through preferences.get(v, []) |
| Builders.PruneLoop | sat_solver.py:118-127 | the loops emit a unit [-x] for every table whose weight is not the full 2 or 3 |
| Builders.MinimizingLoop | rc2_solver_tcpc.py:123-133 | the loops emit soft [-x] with weight 2 - w or 3 - w for every table below its full weight |
| Builders.PositiveLoop | rc2_solver_tcpc.py:135-149 | the loops emit soft [x] of weight w for positive weights and a hard [-x] otherwise |
| Builders.FullLoop | rc2_solver_timeout.py:145-155 | the loops emit soft [x] only for tables of full weight 2 or 3 |
| Builders.MinimizingTermsLoop | cpsat_solver.py:118-135 | the minimized objective has a term (2 - w) x or (3 - w) x for every table below its full weight |
| Builders.PositiveTermsLoop | cpsat_solver.py:137-150 | the maximized objective has a term w x for every table of positive weight |
| Tables.InterleavedFacts | rc2_solver_tcpc.py:21-29 | the creation order lists every variable of the instance exactly once, C(N,2)+C(N,3)+N of them |
| Tables.VarOrderFacts | rc2_solver_tcpc.py:21-29 | every entry of the creation order is a well-formed variable of students 1..N and none repeats |
| Tables.NumberingBijection | rc2_solver_tcpc.py:21-29 | numbering a duplicate-free order is a bijection between its entries and 1..length |
| Tables.NumberingOneToOne | rc2_solver_tcpc.py:21-29 | distinct variables get distinct ids |
| Tables.CountedNumbering | rc2_solver_tcpc.py:21-29 | a counter that starts at 1 on an empty dictionary produces the numbering of what it visited |
| Tables.CountedConcat | rc2_solver_tcpc.py:21-29 | counting through u and then on through w is counting through u + w |
| Tables.NumberingSize | sat_solver.py:166-174 | the numbering of a duplicate-free order has as many keys as the order has entries |
| Membership.MembershipExact | rc2_solver_tcpc.py:46-61 | the list of student i names every candidate table containing i, each exactly once |
| Membership.MembershipLength | rc2_solver_tcpc.py:46-61 | every list holds N - 1 pairs and C(N-1, 2) triples |
| Membership.MiddleExact | sat_solver.py:57-61 | for a middle student the four parts of the list are exactly the tables containing i |
| Membership.FirstExact | sat_solver.py:54-56 | student 1's list is exactly the tables containing 1 |
| Membership.LastExact | sat_solver.py:62-64 | student N's list is exactly the tables containing N |
| Membership.PairsUpToFacts | rc2_solver_tcpc.py:63-67 | the pair dictionary iterates the pairs (i, j), i < j, of 1..N, each once |
| Membership.TriplesUpToFacts | rc2_solver_tcpc.py:68-72 | the triple dictionary iterates the triples (i, j, k), i < j < k, of 1..N, each once |
| Membership.CandidatesFacts | rc2_solver_tcpc.py:84-112 | pairs then triples are exactly the well-formed tables of 1..N, with no repeats |
| Membership.CandidatesDistinct | rc2_solver_tcpc.py:84-112 | no candidate table appears twice |
| Grouped.NumberGrouped | rc2_solver.py:37-55 | the counter loops number all pairs, then all triples, then every y_i, from 1 on; the ids are the numbering of the grouped order |
| Grouped.NumberPairsGrouped | rc2_solver.py:38-42 | the pair double loop numbers every pair of lo..hi-1 row by row |
| Grouped.NumberTriplesGrouped | rc2_solver.py:44-49 | the triple loops number every triple of lo..hi-1 in dictionary order |
| Grouped.NumberFlagsGrouped | rc2_solver.py:52-55 | the flag loop numbers y_lo..y_hi-1 |
| Grouped.GroupedFacts | rc2_solver.py:37-55 | the grouped order lists every variable of lo..hi-1 once, C(m,2)+C(m,3)+m of them |
| Grouped.GroupedPairIds | rc2_solver.py:37-42 | the pairs take ids 1..C(m,2) in dictionary order |
| Grouped.GroupedTripleIds | rc2_solver.py:44-49 | the triples take the next C(m,3) ids |
| Grouped.GroupedFlagIds | rc2_solver.py:52-55 | y_s takes id C(m,2)+C(m,3)+(s-lo)+1 |
| Grouped.GroupedIdsFor | cp-sat_minimizing.py:32-40 | the grouped numbering of 1..N gives every variable of the 1-indexed model its own positive id |
| Seating.InterleavedIds | rc2_solver_tcpc.py:21-29 | the interleaved numbering gives every variable of 1..N a distinct id in 1..C(N,2)+C(N,3)+N |
| Seating.MembershipSemantics | rc2_solver_tcpc.py:46-61 | exactly one id of student i's list is true iff i sits at exactly one chosen table |
| Seating.ExactlySumSemantics | cpsat_solver.py:37-42 | sum(list) == 1 holds iff the student sits at exactly one chosen table |
| Seating.PairwiseSemantics | rc2_solver_minimizing.py:58-61 | a seated student satisfies the clause and every pairwise exclusion, of which there are C(L, 2) |
| Seating.AtMostAndClauseSemantics | rc2_solver_tcpc.py:37-44 | a seated student satisfies both the at-most-one and the at-least-one constraint |
| Seating.TableClausesSemantics | rc2_solver_tcpc.py:63-73 | a table's validity clauses hold iff, when chosen, the flags of its members are set (pair) or clear (triple) |
| Seating.ValiditySemantics | rc2_solver_tcpc.py:63-73 | all validity clauses hold iff every chosen table fits the flags |
| Seating.AllValiditySemantics | rc2_solver_tcpc.py:63-73 | over the candidates, the validity clauses hold iff every chosen table fits |
| Seating.AllValidityLength | sat_solver.py:67-78 | there are 2 C(N,2) + 3 C(N,3) validity clauses, as clauses_count adds |
| Seating.FlagCount | rc2_solver_tcpc.py:76-82 | the number of true flag ids is the number of students whose flag is set |
| Seating.SeatingPartition | rc2_solver_tcpc.py:169-188 | when every student sits once, two different chosen tables share nobody and every student is at a chosen table |
| Weights.WeightNonNegative | rc2_solver_tcpc.py:84-112 | every weight is at least 0 |
| Weights.PairWeightRange | rc2_solver_tcpc.py:87-95 | the pair weight is 0 or 2, and 2 exactly when the two like each other |
| Weights.TripleWeightRange | rc2_solver_tcpc.py:96-110 | the triple weight is 3p/8 for some p in 0..8, at most 3, and 3 exactly when each likes both others |
| Weights.WeightAtMostFull | rc2_solver_tcpc.py:84-112 | on well-formed lists, 0 <= w <= full weight and so is the deficiency |
| Weights.DuplicateEntryInflatesWeight | rc2_solver_tcpc.py:87-95 | a list naming a friend twice gives a pair weight of 4, above the full 2 |
| Weights.SetPairWeightRange | rc2_solver.py:98-102 | the weight read through set(preferences[i]) is 0 or 2, and 2 exactly when the two like each other |
| Weights.SetTripleWeightRange | rc2_solver.py:109-115 | the set-based triple weight is a multiple of 3/8 in 0..3 |
| Weights.SetWeightAtMostFull | rc2_solver.py:98-119 | the set-based weight lies between 0 and the full weight |
| Weights.SetDeficiencyValues | cp-sat_minimizing.py:108-122 | the deficiency 2 - w or 3 - w takes only the values the weights allow |
| Weights.SetWeightsAgree | cp-sat_minimizing.py:110-116 | on well-formed lists the set-based weight equals the weight of calculate_weights |
| Weights.SeatBound | rc2_solver_minimizing.py:74 | int(N * 4 / 7) is the floor of 4N/7 |
| Weights.GroupedSeatBound | rc2_solver.py:89-90 | (N // 7) * 4 is a multiple of 4, at most int(N * 4 / 7) |
| Weights.SeatBoundsAgree | rc2_solver.py:89-90 | the two bounds agree exactly when N mod 7 is 0 or 1 |
| Cnf.ExactlyOnePairwise | rc2_solver_minimizing.py:58-61 | the clause plus the pairwise exclusions hold iff exactly one listed id is true |
| Cnf.PairwiseAloneAllowsNone | temp5.py:93-95 | the pairwise exclusions without the clause are satisfied when nothing is true |
| Cnf.ExactlyOneCount | rc2_solver_tcpc.py:37-44 | exactly one true literal means a count of one |
| Cnf.GainPlusCost | rc2_solver_timeout.py:157-166 | satisfied plus violated soft weight is the total soft weight |
| Cnf.SoftSnoc | rc2_solver_tcpc.py:123-149 | appending a soft clause adds its weight to the total and to the cost or the gain |
| Encoding.EncodeOneSemantics | rc2_solver_tcpc.py:37-44 | each encoding of one student's list holds iff exactly one listed id is true |
| Encoding.AssignmentSemantics | rc2_solver_tcpc.py:37-44 | the constraints of students 1..m hold iff each of them sits at exactly one chosen table |
| Encoding.AssignmentLength | sat_solver.py:41-49 | the at-most encoding adds two constraints per student and the linear one adds one |
| Encoding.HardSemantics | rc2_solver_tcpc.py:31-35 | the hard part holds iff every student sits once, every chosen table fits, and the number of flags set is the bound |
| Encoding.SeatsFill | rc2_solver_tcpc.py:31-35 | when every student sits once, the chosen tables seat N students |
| Encoding.MinimizingSoftWeights | rc2_solver_tcpc.py:123-133 | every minimizing soft weight lies in (0, 3] |
| Encoding.MinimizingSoftCost | rc2_solver_tcpc.py:123-133 | the violated minimizing weight is the seats of the chosen tables minus their weight |
| Encoding.MinimizingSoftExact | rc2_solver_tcpc.py:123-133 | a table has the soft [-x] of weight full - w iff w is below its full weight |
| Encoding.MinimizingDuality | rc2_solver_timeout.py:157-166 | for a seated assignment, N minus the minimizing cost is the weight of the chosen tables |
| Encoding.PositiveSoftGain | rc2_solver_tcpc.py:135-149 | every maximizing soft weight is positive, the satisfied soft weight is the chosen weight, and soft plus hard units cover each table once |
| Encoding.ZeroUnitsHold | rc2_solver_tcpc.py:141-149 | the hard units hold iff no chosen table has weight 0 |
| Encoding.FullSoftGain | rc2_solver_timeout.py:145-155 | the satisfied soft weight is the weight of the chosen full-weight tables |
| Encoding.FullSoftWeights | rc2_solver_timeout.py:145-155 | every soft weight is exactly 2 or 3 |
| Encoding.FullSoftTotal | rc2_solver_timeout.py:157-166 | sum(wght) minus the cost is the chosen full weight |
| Encoding.PruneUnitsHold | sat_solver.py:118-127 | the units hold iff every chosen table has its full weight, and units plus full tables cover each table once |
| Encoding.PrunedWeightIsFull | fully_sat-based_solver.py:152-161 | when only full tables are chosen, adding 2 or 3 per table is the chosen weight |
| Encoding.MinimizingTermsMatch | cpsat_solver.py:118-135 | the minimized CP-SAT objective equals the RC2 minimizing cost at every assignment |
| Encoding.PositiveTermsMatch | cpsat_solver.py:137-150 | the maximized CP-SAT objective equals the RC2 maximizing gain at every assignment |
| Decoding.Inverse | sat_solver.py:149-150 | the reverse dictionary maps each table's id back to that table |
| Decoding.Decoder | sat_solver.py:149-159 | the combined lookup knows every pair and triple id and maps it to its table |
| Decoding.DecoderExact | sat_solver.py:149-159 | with distinct ids the lookup returns the very table of each id |
| Decoding.TrueIds | sat_solver.py:152-153 | the true ids are the positive literals of the model |
| Decoding.DecodedKeys | sat_solver.py:152-159 | the keys of assigned_tables are the positive known ids of the model, in first-seen order, without repeats |
| Decoding.GroupsOf | sat_solver.py:162 | each group is the member set of its key's table |
| Decoding.Row | cpsat_solver.py:167-170 | sorted([i, j]) or sorted([i, j, k]) holds the table's members |
| Decoding.DecodedGroupsExact | sat_solver.py:144-164 | the groups are exactly the member sets of the chosen tables, one per chosen table |
| Decoding.DecodedPartition | sat_solver.py:144-164 | when every student sits once, the groups are disjoint and cover 1..N |
| Decoding.DecodedWeightIsChosen | rc2_solver_tcpc.py:175-185 | the summed weight of the decoded tables is the chosen weight |
| Decoding.TableSumPermutation | rc2_solver_tcpc.py:175-185 | the sum of weights does not depend on the order of the tables |
| Decoding.ChosenRowsExact | cpsat_solver.py:163-170 | the rows are exactly the sorted member lists of the chosen tables, one per table |
| Decoding.RowSorted | cpsat_solver.py:167-170 | each row is strictly ascending |
| Decoding.RescoredIsChosen | cpsat_solver.py:174-189 | re-scoring the rows of the chosen tables gives the chosen weight |
| Extraction.ReadLiteral | sat_solver.py:152-159 | one literal adds its table's members under its own key, or nothing if it is negative or unknown |
| Extraction.ExtractSolution | sat_solver.py:144-164 | the groups are the decoded groups of the model |
| Extraction.Groups | sat_solver.py:162 | list(set(students)) per key gives the member sets in key order |
| Extraction.ExtractWithSeatWeights | fully_sat-based_solver.py:140-166 | no model gives [], 0; otherwise the decoded groups and 2 per pair, 3 per triple |
| Extraction.ExtractWithWeights | rc2_solver_tcpc.py:169-188 | no solution gives [], 0; otherwise the decoded groups and the sum of w.get(t, 0) over the decoded tables |
| Extraction.SeatSumIsTableSum | fully_sat-based_solver.py:152-161 | on full-weight tables 2 or 3 per table is their weight |
| Extraction.FullySatisfiedScore | fully_sat-based_solver.py:140-166 | when the units of sat_solver hold, the 2-or-3 score is the chosen weight |
| Extraction.SolvedTables | cpsat_solver.py:163-170 | OPTIMAL or FEASIBLE gives the rows of the chosen tables, otherwise [] |
| Extraction.RescoreTables | cpsat_solver.py:174-189 | the loop sums wij or wijk over the rows of two and three found in the dictionaries |
| Rows.SortRowsFacts | cp-sat_minimizing.py:143 | sort() leaves the same rows, as a multiset, in lexicographic order |
| Rows.SortedUnique | cp-sat_minimizing.py:143 | two sorted orders of the same rows are equal |
| Rows.LexTotal | cp-sat_minimizing.py:143 | Python's list order is total |
| Rows.LexTransitive | cp-sat_minimizing.py:143 | Python's list order is transitive |
| Rows.LexAntisymmetric | cp-sat_minimizing.py:143 | Python's list order is antisymmetric |
| Rows.InsertFacts | cp-sat_minimizing.py:143 | inserting keeps the rows, adds one, and keeps them sorted |
| Rows.RescoredSorted | cp-sat_minimizing.py:143-168 | sorting before re-scoring leaves the total unchanged |
| Solver.WeightsOf | rc2_solver_tcpc.py:84-112 | calculate_weights as a value: exactly the candidates, each with its weight |
| Solver.WeightTableUnique | rc2_solver_tcpc.py:84-112 | any dictionary meeting that description is that value |
| Solver.CandidatesInjective | rc2_solver_tcpc.py:21-29 | the tables have positive, pairwise different ids |
| Solver.ValidityFacts | sat_solver.py:67-78 | every table and its members have ids, and there are 2 C(N,2) + 3 C(N,3) validity clauses |
| Solver.HardConstraintsParts | rc2_solver_tcpc.py:31-35 | the hard part is the assignment constraints, then the validity clauses, then the cardinality constraint |
| Solver.TeamCompositionSolver.constructor | rc2_solver_tcpc.py:8-19 | the solver starts with empty formulas, zero counts, no solution and the given encoding type |
| Solver.TeamCompositionSolver.AddSingleAssignmentClauses | rc2_solver_tcpc.py:37-44 | appends the assignment constraints and counts one per student |
| Solver.TeamCompositionSolver.AddValidTableClauses | rc2_solver_tcpc.py:63-73 | appends the validity clauses and counts 2 per pair and 3 per triple |
| Solver.TeamCompositionSolver.AddCardinalityConstraint | rc2_solver_tcpc.py:76-82 | appends Exactly(y, int(N*4/7)) and adds the encoding's clause count |
| Solver.TeamCompositionSolver.AddHardClauses | rc2_solver_tcpc.py:31-35 | appends the whole hard part, counted |
| Solver.TeamCompositionSolver.AddConstraintThroughPreferences | sat_solver.py:118-127 | appends a unit [-x] for every table below full weight, counted |
| Solver.TeamCompositionSolver.AddSoftClauses | rc2_solver_tcpc.py:114-149 | "min" adds the minimizing soft clauses; "max" adds the positive soft clauses with hard units, or only the full-weight ones, by variant; any other type is a ValueError that adds nothing |
| Solver.TeamCompositionSolver.Build | rc2_solver_tcpc.py:151-154 | builds the hard part and then the soft part of the chosen encoding; an unknown type is a ValueError |
| Solver.TeamCompositionSolver.SolveWithRc2 | rc2_solver_timeout.py:157-166 | stores the solution; the total is N - cost for "min" and sum(wght) - cost otherwise |
| Solver.TeamCompositionSolver.GetStats | rc2_solver_tcpc.py:190-197 | variables C(N,2)+C(N,3)+N and the hard and soft counts |
| Solver.TeamCompositionSolver.ExtractSolution | sat_solver.py:144-164 | the groups of the model; a partition of 1..N when every student sits once |
| Solver.TeamCompositionSolver.ExtractWithSeatWeights | fully_sat-based_solver.py:140-166 | no model gives [], 0; otherwise the groups and the 2-or-3 score |
| Solver.TeamCompositionSolver.ExtractWithWeights | rc2_solver_tcpc.py:169-188 | no solution gives [], 0; otherwise the groups and their weight, which is the chosen weight when the model repeats no literal |
| Solver.TeamCompositionSolver.BuildPruned | sat_solver.py:129-133 | the CNF is the hard part with CardEnc.atmost, then the units of the tables below full weight, counted |
| Solver.TeamCompositionSolver.SolveSat | sat_solver.py:129-142 | builds that CNF and stores the groups of a non-empty model |
| Solver.MinimizingReport | rc2_solver_timeout.py:157-166 | for a seated assignment the reported N - cost is the chosen weight |
| Solver.FullOnlyReport | rc2_solver_timeout.py:157-166 | sum(wght) - cost is the weight of the chosen full-weight tables |
| CpSat.TeamCompositionCPSATSolver.constructor | cpsat_solver.py:5-29 | the model starts empty and variable_count is C(N,2)+C(N,3)+N |
| CpSat.TeamCompositionCPSATSolver.AddHardClauses | cpsat_solver.py:31-77 | adds the hard part with sum == 1 and counts N + 2 C(N,2) + 3 C(N,3) + 1 |
| CpSat.TeamCompositionCPSATSolver.AddSoftClauses | cpsat_solver.py:109-150 | "min" minimizes the deficiency terms, "max" maximizes the positive terms, anything else is a ValueError that adds nothing |
| CpSat.TeamCompositionCPSATSolver.Solve | cpsat_solver.py:152-172 | builds the model and returns the rows of the chosen tables when CP-SAT is feasible |
| CpSat.TeamCompositionCPSATSolver.ExtractSolutionAndCalculateWeights | cpsat_solver.py:174-189 | the re-scored total, which is the chosen weight for the rows of any assignment |
| CpSat.TeamCompositionCPSATSolver.GetStats | cpsat_solver.py:191-197 | the hard and soft counts and variable_count |
| CpSat.MinimizedObjective | cpsat_solver.py:118-135 | for a seated assignment the minimized value is N minus the chosen weight |
| CpSat.MaximizedObjective | cpsat_solver.py:137-150 | the maximized value is the chosen weight |
| Scripts.HardPart | rc2_solver_minimizing.py:45-77 | the hard loops build the hard part; it holds iff every student sits once, chosen tables fit, and int(N*4/7) flags are set |
| Scripts.MinimizingScript | rc2_solver_minimizing.py:32-118 | the WCNF has the interleaved ids, the pairwise hard part, and a positive soft [-x] of weight at most 3 per table below full weight |
| Scripts.MinimizingGroups | rc2_solver_minimizing.py:135-150 | no or empty solution gives no groups; otherwise the decoded groups, a partition of 1..N when every student sits once |
| Scripts.SatisfiedWeights | rc2_solver_minimizing.py:160-173 | the nested loops end with the sums over the pair and the triple dictionaries |
| Scripts.MatchLoop | rc2_solver_minimizing.py:166-171 | the inner loop adds w.get(t, 0) for every table with the given id |
| Scripts.SatisfiedIsChosen | rc2_solver_minimizing.py:160-175 | for a model without repeated literals the satisfied weight is the chosen weight |
| Scripts.SetWeightsAreWeights | cp-sat_minimizing.py:108-122 | on well-formed lists the objective's set-based weights are calculate_weights' |
| Scripts.DeficiencyObjective | cp-sat_minimizing.py:108-122 | for a seated assignment the minimized sum is N minus the chosen weight |
| Scripts.CandidatesListed | cp-sat_minimizing.py:108-122 | when every student has a list, every member of every candidate has one |
| Scripts.CpSatMinimizingScript | cp-sat_minimizing.py:32-122 | the grouped ids, the sum == 1 hard part, and the deficiency objective whose value is N minus the chosen weight |
| Scripts.CpSatMinimizingReport | cp-sat_minimizing.py:133-168 | the rows of the chosen tables, sorted, none lost or added, and their total is the chosen weight |
| Scripts.CpSatMaximizingScript | cp-sat_maximizing.py:52-110 | weights first, interleaved ids, the hard part, and positive terms whose value is the chosen weight |
| Scripts.MaximizingGroups | cp-sat_maximizing.py:119-130 | a member set per chosen pair, then per chosen triple, when feasible |
| Scripts.MaximizingGroupsPartition | cp-sat_maximizing.py:119-130 | when every student sits once, those groups are disjoint and cover 1..N |
| ZeroIndexed.GroupedZeroIds | rc2_solver.py:37-55 | the grouped numbering of 0..N-1 gives every variable its own positive id |
| ZeroIndexed.ListedExact | rc2_solver.py:58-69 | each list as written holds only tables containing the student, no repeats, and every table the student leads |
| ZeroIndexed.ListedMissesLowTriple | rc2_solver.py:65-69 | for a middle student i >= 2, the triple (0, 1, i) contains i but is missing from its list |
| ZeroIndexed.CompleteExact | rc2_solver.py:58-69 | the corrected list of student i is exactly the tables containing i, each once |
| ZeroIndexed.EndsExact | rc2_solver.py:59-64 | for the first and the last student the lists as written are already complete |
| ZeroIndexed.ZeroAssignmentSemantics | rc2_solver.py:58-74 | the list constraints hold iff each list has exactly one chosen table |
| ZeroIndexed.ZeroFlagCount | rc2_solver.py:88-94 | the number of true flags among y_0..y_m-1 is the count of set flags |
| ZeroIndexed.ZeroHardSemantics | rc2_solver.py:58-94 | the hard part holds iff each list has one chosen table, chosen tables fit, and bound flags are set |
| ZeroIndexed.CompleteHardSemantics | rc2_solver.py:58-94 | with corrected lists the hard part holds iff every student sits once, chosen tables fit, and bound flags are set |
| ZeroIndexed.ListedAdmitsDoubleSeat | rc2_solver.py:65-69 | with five students, (0, 1, 2) and (2, 3, 4) satisfy every hard constraint, yet student 2 sits twice |
| ZeroScripts.ZeroCandidatesFacts | rc2_solver.py:98-119 | the soft loops visit exactly the candidate tables of 0..N-1, each once |
| ZeroScripts.NestedTablesFacts | rc2_solver.py:77-85 | the nested validity loops visit exactly the candidates, each once |
| ZeroScripts.PrintOrderFacts | rc2_solver.py:130-138 | the report loops visit exactly the candidates, each once |
| ZeroScripts.ZeroWeights | rc2_solver.py:98-119 | every candidate has its set-based weight, between 0 and full |
| ZeroScripts.ZeroWeightValues | rc2_solver.py:98-119 | a pair weight is 0 or 2; a triple weight is a multiple of 3/8 in 0..3 |
| ZeroScripts.ListsLoop | rc2_solver.py:58-74 | the list loop emits the constraints of the lists as written |
| ZeroScripts.ZeroHardPart | rc2_solver.py:58-94 | the hard loops build the hard part, with the meaning of ZeroHardSemantics |
| ZeroScripts.Rc2Script | rc2_solver.py:37-119 | the WCNF's hard part holds iff each list has one chosen table, chosen tables fit, (N//7)*4 flags are set and no weight-0 table is chosen; its satisfied soft weight is the chosen weight |
| ZeroScripts.TableRulesSemantics | mip_solver.py:70-83 | the inequalities (or enforced equalities) of a table hold iff, when chosen, it fits |
| ZeroScripts.ValidityRulesSemantics | cp-sat_solver.py:71-84 | all validity rules hold iff every chosen table fits |
| ZeroScripts.ValidityRulesLoop | mip_solver.py:70-83 | the loops emit the rules of every pair and then every triple |
| ZeroScripts.WeightTermsValue | mip_solver.py:90-103 | the objective has one term per candidate and its value is the chosen weight |
| ZeroScripts.WeightTermsLoop | cp-sat_solver.py:94-108 | the loops emit a weighted term for every pair and every triple |
| ZeroScripts.LinearHardSemantics | mip_solver.py:52-86 | the constraints hold iff each list has one chosen table, chosen tables fit, and the bound is met |
| ZeroScripts.CompleteLinearSemantics | mip_solver.py:52-86 | with corrected lists, they hold iff every student sits once, chosen tables fit, and the bound is met |
| ZeroScripts.LinearScript | mip_solver.py:35-103 | the whole model of mip_solver.py or cp-sat_solver.py with that meaning and an objective equal to the chosen weight |
| ZeroScripts.MipAdmitsDoubleSeat | mip_solver.py:60-64 | with eleven students an assignment meets every constraint, yet student 2 sits at two tables |
| ZeroScripts.Report | rc2_solver.py:126-140 | every chosen candidate is printed once, shifted to 1-based, and nothing else |
| ZeroScripts.ModelTrue | rc2_solver.py:132-137 | id x is read as true when solution[x-1] is positive |
| ZeroScripts.ModelTrueIsTrueIds | rc2_solver.py:132-137 | on an RC2 model listing ids 1..L in order, that reading is the set of positive literals |
| Temp5.TcpcModel.constructor | temp5.py:50-57 | empty maps, current_var 1, no constraints |
| Temp5.TcpcModel.GetVar | temp5.py:59-64 | a known name keeps its id; a new one gets current_var, which then advances; both maps agree |
| Temp5.TcpcModel.AddHardConstraint | temp5.py:66-67 | appends one hard clause and nothing else changes |
| Temp5.TcpcModel.AddSoftConstraint | temp5.py:69-70 | appends one soft clause and nothing else changes |
| Temp5.TcpcModel.AllocateTables | temp5.py:80-92 | names the tables of a list, in order, and returns their ids |
| Temp5.TcpcModel.AddLists | temp5.py:78-95 | adds the pairwise exclusions of every list as written, naming the tables it meets |
| Temp5.TcpcModel.AddPairClauses | temp5.py:98-104 | names x, y_i, y_j and adds [-x, y_i], [-x, y_j] |
| Temp5.TcpcModel.AddTripleClauses | temp5.py:107-115 | names x, y_i, y_j, y_k and adds the three clearing clauses |
| Temp5.TcpcModel.AddTableClauses | temp5.py:98-115 | adds the validity clauses of one table |
| Temp5.TcpcModel.AddValidity | temp5.py:98-115 | adds the validity clauses of a range of tables, in order |
| Temp5.TcpcModel.AddSeatCount | temp5.py:117-121 | names y_0..y_N-1 and adds Exactly(y, (N // 7) * 4) |
| Temp5.TcpcModel.SoftWeight | temp5.py:124-139 | the weight computed from graph is the set-based weight of the table |
| Temp5.TcpcModel.AddSoftTable | temp5.py:124-141 | adds soft [x] for one table when its weight is positive |
| Temp5.TcpcModel.AddSoft | temp5.py:123-141 | adds soft [x] with weight w for every table of positive weight, in order |
| Temp5.TcpcModel.BuildModel | temp5.py:72-141 | every variable gets a distinct positive id; the hard clauses are the lists' exclusions, the validity clauses and the seat count; the soft clauses are the positive weights |
| Temp5.Temp5HardSemantics | temp5.py:72-121 | the hard part holds iff each list has at most one chosen table, chosen tables fit, and (N//7)*4 flags are set |
| Temp5.PairwiseListsSemantics | temp5.py:78-95 | the exclusions of the first m lists hold iff none of those lists has two chosen tables |
| Temp5.Temp5AdmitsNoTable | temp5.py:78-95 | with the first (N//7)*4 flags set and no table chosen every hard constraint holds, yet student 0 sits nowhere |
| Temp5.AllocatedZeroIds | temp5.py:59-64 | the names handed out cover every variable with distinct positive ids |
| Temp5.BuildGraph | temp5.py:32-43 | graph holds each student with a non-empty list, unchanged, and weights holds its length |
| Temp5.GraphSameWeights | temp5.py:32-43 | reading through graph gives the same lists and weights as reading the preferences |

## Left out

- Reading input files (`read_data`), `save_wcnf`, the Excel and plot exporters, data generation and all `print` output are not modelled. The decoders return the groups or tables they would print.
- Minisat22, RC2, CP-SAT and SCIP are not modelled. A solver's result enters as a parameter: a model or `None`, a cost, a feasibility flag, or the set of true ids. Nothing ties that parameter to the constraints being optimal or even satisfied (`Solver.TeamCompositionSolver.SolveWithRc2`, `SolveSat`, `CpSat.TeamCompositionCPSATSolver.Solve`, `Scripts.CpSatMinimizingReport`, `Scripts.MaximizingGroups`, `ZeroScripts.Report`). The lemmas instead state what holds for any assignment that meets the constraints.
- Timing, threads and time-outs are not modelled (`time.time()`, the timeout thread of `rc2_solver_timeout.py` and `rc2_tcpc.py`).
- The MemoryError branches (`rc2_solver_tcpc.py:159-164`, `rc2_solver_minimizing.py:126-130`) are not modelled. Their only effect, `solution = None`, is the `None` case of the solution parameter.
- A student with no input line is not modelled as a KeyError. `rc2_solver.py:100-101,112-114`, `mip_solver.py:94,100` and `cp-sat_solver.py:99,105` index `preferences[i]` directly and raise KeyError for such a student. `ZeroScripts.ZeroWeights`, `ZeroScripts.WeightTerms` and `ZeroScripts.Rc2Script` read through `Get` and give weight 0 instead. That is what temp5's `defaultdict` does (`temp5.py:35`) and what `preferences.get(v, [])` does in the class files.
- Scripts.CpSatMinimizingScript: requires a list for every student once N >= 2 rather than modelling the KeyError at `cp-sat_minimizing.py:110,116`.
- The crash on a missing solution is not modelled. `rc2_solver_minimizing.py:175` calls `calculate_satisfied_weights` outside the `if solution:` of line 137, and `temp5.py:154` loops over `solution` unguarded. Both raise TypeError when RC2 returns `None`. `Scripts.SatisfiedWeights` takes a solution sequence, so it covers only the case where a model exists.
- Floating point is not modelled. The weights `3 * wi * wj * wk / 8` are kept as integer eighths; these values are exact in binary floating point. `int(N * 4 / 7)` is modelled as the exact floor of 4N/7 (`Weights.SeatBound`).
- pysat's `CardEnc` encodings (sequential counter) are abstracted. Their auxiliary variables and clauses become one `AtMost` or `Exactly` constraint, and the `IDPool` ids they take are not allocated.
- Solver.TeamCompositionSolver.AddCardinalityConstraint: the number of clauses `CardEnc.equals` produces, which `clauses_count` adds in `sat_solver.py:80-86`, is a parameter `counted` and not computed.
- Solver.TeamCompositionSolver.AddHardClauses: likewise, `cardinalityCount` stands for the clause count of the encoding.
- Variable names are `Var` values, not strings. temp5's `f"x_{i}_{j}"` names and CP-SAT's `NewBoolVar` names become `X(Pair(i, j))` and its kin, with CP-SAT variables identified by their ids.
- temp5's `defaultdict` inserts an empty list when a missing student is read (`self.graph[i]` at `temp5.py:127-138`). The model reads through `Get` and leaves the map unchanged.
- ZeroScripts.ModelTrue: `solution[x - 1]` beyond the end of the solution would raise IndexError; the model reads such an id as false.
- mip_solver.py reads a variable as chosen when `solution_value() > 0.5`. The model works on 0/1 assignments only.
- The duplicated `calculate_weights` of each file is modelled once (`Builders.CalculateWeights` and `Solver.WeightsOf`); the set-based weights of the 0-indexed scripts are `Weights.SetWeight`.

## Findings

| source | as written | input that shows it | evidently intended | confidence | as-written member | corrected member |
|---|---|---|---|---|---|---|
| rc2_solver.py:65-69 | the list of a middle student i omits the triples (j, k, i) with j < k < i, so a student can sit at a triple they lead from behind and at another one | N = 5, tables (0, 1, 2) and (2, 3, 4) chosen, no flag set: every hard clause holds, yet student 2 sits twice | every list names every table containing its student, as the 1-indexed files do | high, not executed | ZeroIndexed.ListedAdmitsDoubleSeat | ZeroIndexed.CompleteHardSemantics |
| mip_solver.py:60-64 | the same incomplete lists feed `sum(clauses) == 1` (also `cp-sat_solver.py:61-65`) | N = 11, tables (0, 1, 2), (2, 3, 10), (4, 5), (6, 7), (8, 9) with flags 4..9: every constraint holds, yet student 2 sits twice | sum == 1 over every table containing the student | high, not executed | ZeroScripts.MipAdmitsDoubleSeat | ZeroScripts.CompleteLinearSemantics |
| temp5.py:78-95 | the lists get only the pairwise exclusions, with no at-least-one clause; they also lack the middle triples | N >= 1, no table chosen and the first (N // 7) * 4 flags set: every hard clause holds, yet student 0 sits nowhere | each student at exactly one table: the clause plus exclusions over the complete list | high, not executed | Temp5.Temp5AdmitsNoTable | ZeroIndexed.CompleteHardSemantics |
