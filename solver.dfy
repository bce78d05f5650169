/** The solver classes of the SAT and MaxSAT back ends. Five files carry
    the same class: a CNF solver with pruning (sat_solver.py and
    fully_sat-based_solver.py) and three RC2 solvers with soft clauses
    (rc2_solver_tcpc.py, rc2_solver_timeout.py, rc2_tcpc.py). Their builders
    agree line for line except for what they count and for the
    maximizing rule, which are parameters here. */
module Solver {
  import opened Tables
  import opened Cnf
  import opened Weights
  import opened Membership
  import opened Seating
  import opened Encoding
  import opened Decoding
  import opened Builders
  import opened Extraction

  /** How the maximizing mode turns a weight into a soft clause. */
  datatype MaxRule =
    | PositiveOrForbidden  // w > 0: soft [x] of weight w; otherwise hard [-x] (rc2_solver_tcpc.py)
    | FullOnly             // w at full weight: soft [x]; nothing otherwise (rc2_solver_timeout.py, rc2_tcpc.py)

  datatype Outcome = Done | ValueError(message: string)

  /** calculate_weights as a value: the weight of every candidate table. */
  function WeightsOf(prefs: Prefs, n: nat): (r: map<Table, int>)
    ensures WeightTable(r, prefs, n)
  {
    CandidatesFacts(n);
    map t | t in Candidates(n) :: Weight(prefs, t)
  }

  /** calculate_weights has one possible result. */
  lemma WeightTableUnique(w: map<Table, int>, prefs: Prefs, n: nat)
    requires WeightTable(w, prefs, n)
    ensures w == WeightsOf(prefs, n)
  {
    var r := WeightsOf(prefs, n);
    assert forall t :: t in w <==> t in r;
  }

  /** The candidates of n students have distinct ids under a numbering
      of the variables. */
  lemma CandidatesInjective(ids: map<Var, int>, n: nat)
    requires IdsFor(ids, n)
    ensures forall t :: t in Candidates(n) ==> X(t) in ids && ids[X(t)] > 0
    ensures Injective(ids, Candidates(n))
  {
    CandidatesFacts(n);
    assert forall t :: t in Candidates(n) ==> ValidVar(X(t), n);
  }

  /** Under a numbering of the variables every candidate and its members
      have ids, and the candidates carry 2 C(N,2) + 3 C(N,3) validity
      clauses. */
  lemma ValidityFacts(ids: map<Var, int>, n: nat)
    requires ids == Numbering(VarOrder(n))
    ensures IdsFor(ids, n)
    ensures forall t :: t in Candidates(n) ==> X(t) in ids && forall s :: s in Members(t) ==> Y(s) in ids
    ensures |ValidityClauses(ids, Candidates(n))| == 2 * C2(n) + 3 * C3(n)
  {
    InterleavedIds(n);
    CandidatesHaveIds(ids, n);
    CandidatesFacts(n);
    PairsUpToFacts(1, n + 1, n + 1);
    TriplesUpToFacts(1, n + 1, n + 1);
    ValidityLength(ids, PairsUpTo(1, n + 1, n + 1), TriplesUpTo(1, n + 1, n + 1));
  }

  /** The hard constraints are the membership constraints, the validity
      clauses and the seat count, in that order. */
  lemma HardConstraintsParts(ids: map<Var, int>, n: nat, enc: OneOf, bound: int)
    requires IdsFor(ids, n)
    ensures forall t :: t in Candidates(n) ==> X(t) in ids && forall s :: s in Members(t) ==> Y(s) in ids
    ensures forall s :: 1 <= s <= n ==> Y(s) in ids
    ensures HardConstraints(ids, n, enc, bound) ==
      AssignmentConstraints(ids, n, n, enc) + Clauses(ValidityClauses(ids, Candidates(n)))
      + [Exactly(FlagIds(ids, n), bound)]
  {
    CandidatesHaveIds(ids, n);
    assert forall s :: 1 <= s <= n ==> ValidVar(Y(s), n);
  }

  lemma Associative<T>(p: seq<T>, q: seq<T>, r: seq<T>, s: seq<T>)
    ensures p + q + r + s == p + (q + r + s)
  {
  }

  class TeamCompositionSolver {
    const n: nat
    const prefs: Prefs
    /** 'min' or 'max'; the CNF solvers have no mode. */
    const encodingType: string

    /** xij_vars, xijk_vars and y_vars in one map, with the keys of the first
        two in insertion order. */
    const ids: map<Var, int>
    const pairs: seq<Table>
    const triples: seq<Table>

    /** The hard and soft clauses of the formula, cardinality constraints
        kept whole. */
    var hard: seq<Constraint>
    var soft: seq<Soft>
    /** clauses_count of the CNF solvers, hard_count of the RC2 solvers. */
    var hardCount: int
    var softCount: int

    /** What solve stores: the model, and the reported total weight. */
    var solution: Option<seq<int>>
    var totalWeight: int
    var assignedTables: seq<set<int>>

    ghost predicate Valid()
    {
      ids == Numbering(VarOrder(n)) &&
      pairs == PairsUpTo(1, n + 1, n + 1) && triples == TriplesUpTo(1, n + 1, n + 1)
    }

    /** __init__ and _initialize_variables. */
    constructor (numStudents: nat, preferences: Prefs, encodingType: string)
      ensures Valid()
      ensures n == numStudents && prefs == preferences && this.encodingType == encodingType
      ensures hard == [] && soft == [] && hardCount == 0 && softCount == 0
      ensures solution == None && totalWeight == 0 && assignedTables == []
    {
      n := numStudents;
      prefs := preferences;
      this.encodingType := encodingType;
      var ids0, pairs0, triples0, next := NumberVariables(numStudents);
      ids, pairs, triples := ids0, pairs0, triples0;
      hard, soft := [], [];
      hardCount, softCount := 0, 0;
      solution, totalWeight, assignedTables := None, 0, [];
    }

    /** _add_single_assignment_clauses: one exactly-one constraint per
        student over its membership list, and one count per student. */
    method AddSingleAssignmentClauses(enc: OneOf)
      requires Valid()
      modifies this
      ensures Valid() && soft == old(soft) && softCount == old(softCount)
      ensures solution == old(solution) && totalWeight == old(totalWeight) && assignedTables == old(assignedTables)
      ensures IdsFor(ids, n)
      ensures hard == old(hard) + AssignmentConstraints(ids, n, n, enc)
      ensures hardCount == old(hardCount) + n
    {
      InterleavedIds(n);
      var cs := SingleAssignmentLoop(ids, n, enc);
      hard := hard + cs;
      hardCount := hardCount + n;
    }

    /** _add_valid_table_clauses: two clauses per pair, three per triple. */
    method AddValidTableClauses()
      requires Valid()
      modifies this
      ensures Valid() && soft == old(soft) && softCount == old(softCount)
      ensures solution == old(solution) && totalWeight == old(totalWeight) && assignedTables == old(assignedTables)
      ensures IdsFor(ids, n) && forall t :: t in Candidates(n) ==> X(t) in ids && forall s :: s in Members(t) ==> Y(s) in ids
      ensures hard == old(hard) + Clauses(ValidityClauses(ids, Candidates(n)))
      ensures hardCount == old(hardCount) + 2 * C2(n) + 3 * C3(n)
    {
      ValidityFacts(ids, n);
      var cs := ValidityLoop(ids, pairs, triples);
      hard := hard + Clauses(cs);
      hardCount := hardCount + |cs|;
    }

    /** _add_cardinality_constraint: sum(y) == int(N * 4 / 7). The CNF
        solvers count each clause of the encoding, the RC2 solvers count the
        block once; counted is that number. */
    method AddCardinalityConstraint(counted: nat)
      requires Valid()
      modifies this
      ensures Valid() && soft == old(soft) && softCount == old(softCount)
      ensures solution == old(solution) && totalWeight == old(totalWeight) && assignedTables == old(assignedTables)
      ensures IdsFor(ids, n)
      ensures hard == old(hard) + [Exactly(FlagIds(ids, n), SeatBound(n))]
      ensures hardCount == old(hardCount) + counted
    {
      InterleavedIds(n);
      hard := hard + [Exactly(FlagIds(ids, n), SeatBound(n))];
      hardCount := hardCount + counted;
    }

    /** add_hard_clauses: the hard constraints of the model, counted
        N + 2 C(N,2) + 3 C(N,3) plus the cardinality count. */
    method AddHardClauses(enc: OneOf, cardinalityCount: nat)
      requires Valid()
      modifies this
      ensures Valid() && soft == old(soft) && softCount == old(softCount)
      ensures solution == old(solution) && totalWeight == old(totalWeight) && assignedTables == old(assignedTables)
      ensures IdsFor(ids, n)
      ensures hard == old(hard) + HardConstraints(ids, n, enc, SeatBound(n))
      ensures hardCount == old(hardCount) + n + 2 * C2(n) + 3 * C3(n) + cardinalityCount
    {
      ghost var before := hard;
      AddSingleAssignmentClauses(enc);
      ghost var a := AssignmentConstraints(ids, n, n, enc);
      AddValidTableClauses();
      ghost var v := Clauses(ValidityClauses(ids, Candidates(n)));
      AddCardinalityConstraint(cardinalityCount);
      ghost var c := [Exactly(FlagIds(ids, n), SeatBound(n))];
      HardConstraintsParts(ids, n, enc, SeatBound(n));
      assert hard == before + a + v + c;
      Associative(before, a, v, c);
    }

    /** add_constraint_through_preferences: a hard [-x] for every pair whose
        weight is not 2 and every triple whose weight is not 3, each counted. */
    method AddConstraintThroughPreferences(w: map<Table, int>)
      requires Valid() && WeightTable(w, prefs, n)
      modifies this
      ensures Valid() && soft == old(soft) && softCount == old(softCount)
      ensures solution == old(solution) && totalWeight == old(totalWeight) && assignedTables == old(assignedTables)
      ensures Keyed(ids, w, Candidates(n))
      ensures hard == old(hard) + Clauses(PruneUnits(ids, w, Candidates(n)))
      ensures hardCount == old(hardCount) + |PruneUnits(ids, w, Candidates(n))|
    {
      WeightTableKeyed(ids, w, prefs, n);
      var units := PruneLoop(ids, w, pairs + triples);
      hard := hard + Clauses(units);
      hardCount := hardCount + |units|;
    }

    /** add_soft_clauses: the minimizing or the maximizing soft clauses, each
        soft clause counted; any other mode is a ValueError that adds
        nothing. */
    method AddSoftClauses(w: map<Table, int>, rule: MaxRule) returns (outcome: Outcome)
      requires Valid() && WeightTable(w, prefs, n)
      modifies this
      ensures Valid()
      ensures solution == old(solution) && totalWeight == old(totalWeight) && assignedTables == old(assignedTables)
      ensures Keyed(ids, w, Candidates(n))
      ensures encodingType == "min" ==>
        outcome == Done && hard == old(hard) && hardCount == old(hardCount) &&
        soft == old(soft) + MinimizingSoft(ids, w, Candidates(n)) &&
        softCount == old(softCount) + |MinimizingSoft(ids, w, Candidates(n))|
      ensures encodingType == "max" && rule == PositiveOrForbidden ==>
        outcome == Done && hard == old(hard) + Clauses(ZeroUnits(ids, w, Candidates(n))) && hardCount == old(hardCount) &&
        soft == old(soft) + PositiveSoft(ids, w, Candidates(n)) &&
        softCount == old(softCount) + |PositiveSoft(ids, w, Candidates(n))|
      ensures encodingType == "max" && rule == FullOnly ==>
        outcome == Done && hard == old(hard) && hardCount == old(hardCount) &&
        soft == old(soft) + FullSoft(ids, w, Candidates(n)) &&
        softCount == old(softCount) + |FullSoft(ids, w, Candidates(n))|
      ensures encodingType != "min" && encodingType != "max" ==>
        outcome.ValueError? && hard == old(hard) && hardCount == old(hardCount) &&
        soft == old(soft) && softCount == old(softCount)
    {
      WeightTableKeyed(ids, w, prefs, n);
      var ts := pairs + triples;
      if encodingType == "min" {
        var cs := MinimizingLoop(ids, w, ts);
        soft := soft + cs;
        softCount := softCount + |cs|;
      } else if encodingType == "max" {
        if rule == PositiveOrForbidden {
          var cs, units := PositiveLoop(ids, w, ts);
          soft := soft + cs;
          hard := hard + Clauses(units);
          softCount := softCount + |cs|;
        } else {
          var cs := FullLoop(ids, w, ts);
          soft := soft + cs;
          softCount := softCount + |cs|;
        }
      } else {
        return ValueError("Invalid encoding type. Use 'min' for minimizing or 'max' for maximizing.");
      }
      outcome := Done;
    }

    /** solve of the RC2 solvers up to the engine call: the hard clauses,
        the weights, the soft clauses. On a fresh solver the hard count is
        N + 2 C(N,2) + 3 C(N,3) + 1. */
    method Build(rule: MaxRule) returns (outcome: Outcome, w: map<Table, int>)
      requires Valid() && hard == [] && soft == [] && hardCount == 0 && softCount == 0
      modifies this
      ensures Valid() && IdsFor(ids, n)
      ensures solution == old(solution) && totalWeight == old(totalWeight) && assignedTables == old(assignedTables)
      ensures w == WeightsOf(prefs, n)
      ensures hardCount == n + 2 * C2(n) + 3 * C3(n) + 1
      ensures encodingType == "min" ==> outcome == Done && soft == MinimizingSoft(ids, w, Candidates(n))
      ensures encodingType == "max" && rule == FullOnly ==> outcome == Done && soft == FullSoft(ids, w, Candidates(n))
      ensures encodingType == "max" && rule == PositiveOrForbidden ==> outcome == Done && soft == PositiveSoft(ids, w, Candidates(n))
      ensures encodingType != "min" && encodingType != "max" ==> outcome.ValueError? && soft == []
    {
      AddHardClauses(CardinalityAtMost, 1);
      w := CalculateWeights(prefs, n);
      WeightTableUnique(w, prefs, n);
      outcome := AddSoftClauses(w, rule);
    }

    /** solve_with_rc2 of rc2_solver_timeout.py, given what the engine
        returns: the model and its cost. The reported total is the sum of
        the soft weights minus the cost, or in 'min' mode N minus the cost
        (8N eighths). */
    method SolveWithRc2(model: Option<seq<int>>, cost: int)
      requires Valid()
      modifies this
      ensures Valid() && hard == old(hard) && soft == old(soft)
      ensures hardCount == old(hardCount) && softCount == old(softCount) && assignedTables == old(assignedTables)
      ensures solution == model
      ensures totalWeight == if encodingType == "min" then 8 * n - cost else TotalWeight(soft) - cost
    {
      solution := model;
      totalWeight := TotalWeight(soft) - cost;
      if encodingType == "min" {
        totalWeight := 8 * n - cost;
      }
    }

    /** get_stats: the variable count C(N,2) + C(N,3) + N and the counters. */
    method GetStats() returns (variables: int, hardClauses: int, softClauses: int)
      requires Valid()
      ensures variables == C2(n) + C3(n) + n
      ensures hardClauses == hardCount && softClauses == softCount
    {
      CandidatesFacts(n);
      variables := |pairs| + |triples| + n;
      hardClauses, softClauses := hardCount, softCount;
    }

    /** extract_solution of sat_solver.py: one group per true pair or triple
        id; with every student at exactly one chosen table the groups
        partition the class. */
    method ExtractSolution(model: seq<int>) returns (groups: seq<set<int>>)
      requires Valid()
      ensures IdsFor(ids, n) && forall t :: t in Candidates(n) ==> X(t) in ids
      ensures groups == Decode(ids, pairs, triples, model)
      ensures Seated(ids, TrueIds(model), n) ==> PartitionOf(groups, n)
    {
      InterleavedIds(n);
      CandidatesInjective(ids, n);
      groups := Extraction.ExtractSolution(Inverse(ids, pairs), Inverse(ids, triples), model);
      if Seated(ids, TrueIds(model), n) {
        DecodedPartition(ids, n, model);
      }
    }

    /** extract_solution_and_calculate_weights of fully_sat-based_solver.py:
        2 per true pair and 3 per true triple. */
    method ExtractWithSeatWeights(model: Option<seq<int>>) returns (groups: seq<set<int>>, total: int)
      requires Valid()
      ensures IdsFor(ids, n) && forall t :: t in Candidates(n) ==> X(t) in ids
      ensures model.None? ==> groups == [] && total == 0
      ensures model.Some? ==>
        groups == Decode(ids, pairs, triples, model.value) &&
        total == SeatSum(DecodedTables(Decoder(ids, pairs, triples), model.value))
    {
      InterleavedIds(n);
      CandidatesInjective(ids, n);
      groups, total := Extraction.ExtractWithSeatWeights(Inverse(ids, pairs), Inverse(ids, triples), model);
    }

    /** extract_solution_and_calculate_weights of the RC2 solvers: the weights
        are recomputed and added up over the true pair and triple ids. On a
        model that lists each literal once the total is the weight of the
        chosen tables. */
    method ExtractWithWeights(model: Option<seq<int>>) returns (groups: seq<set<int>>, total: int)
      requires Valid()
      ensures IdsFor(ids, n) && forall t :: t in Candidates(n) ==> X(t) in ids
      ensures model.None? ==> groups == [] && total == 0
      ensures model.Some? ==>
        groups == Decode(ids, pairs, triples, model.value) &&
        total == TableSum(WeightsOf(prefs, n), DecodedTables(Decoder(ids, pairs, triples), model.value))
      ensures model.Some? && Distinct(model.value) ==>
        total == ChosenWeight(ids, TrueIds(model.value), WeightsOf(prefs, n), Candidates(n))
    {
      InterleavedIds(n);
      CandidatesInjective(ids, n);
      CandidatesFacts(n);
      var w := CalculateWeights(prefs, n);
      WeightTableUnique(w, prefs, n);
      groups, total := Extraction.ExtractWithWeights(Inverse(ids, pairs), Inverse(ids, triples), w, model);
      if model.Some? && Distinct(model.value) {
        DecodedWeightIsChosen(ids, pairs, triples, w, model.value);
      }
    }

    /** The model solve of the CNF solvers hands to the engine: the hard
        clauses, the weights and the pruning. */
    method BuildPruned(cardinalityCount: nat)
      requires Valid() && hard == [] && hardCount == 0
      modifies this
      ensures Valid() && soft == old(soft) && softCount == old(softCount)
      ensures solution == old(solution) && totalWeight == old(totalWeight) && assignedTables == old(assignedTables)
      ensures IdsFor(ids, n) && Keyed(ids, WeightsOf(prefs, n), Candidates(n))
      ensures hard == HardConstraints(ids, n, CardinalityAtMost, SeatBound(n)) +
        Clauses(PruneUnits(ids, WeightsOf(prefs, n), Candidates(n)))
      ensures hardCount == n + 2 * C2(n) + 3 * C3(n) + cardinalityCount + |PruneUnits(ids, WeightsOf(prefs, n), Candidates(n))|
    {
      AddHardClauses(CardinalityAtMost, cardinalityCount);
      ghost var h := HardConstraints(ids, n, CardinalityAtMost, SeatBound(n));
      assert hard == h by {
        assert [] + h == h;
      }
      var w := CalculateWeights(prefs, n);
      WeightTableUnique(w, prefs, n);
      AddConstraintThroughPreferences(w);
    }

    /** solve of sat_solver.py, given the engine's answer: the pruned model
        is built, and a non-empty model is decoded into assigned_tables. */
    method SolveSat(model: Option<seq<int>>, cardinalityCount: nat)
      requires Valid() && hard == [] && hardCount == 0
      modifies this
      ensures Valid() && soft == old(soft) && softCount == old(softCount)
      ensures IdsFor(ids, n) && Keyed(ids, WeightsOf(prefs, n), Candidates(n))
      ensures hard == HardConstraints(ids, n, CardinalityAtMost, SeatBound(n)) +
        Clauses(PruneUnits(ids, WeightsOf(prefs, n), Candidates(n)))
      ensures model.Some? && model.value != [] ==> assignedTables == Decode(ids, pairs, triples, model.value)
      ensures !(model.Some? && model.value != []) ==> assignedTables == old(assignedTables)
    {
      BuildPruned(cardinalityCount);
      if model.Some? && model.value != [] {
        assignedTables := ExtractSolution(model.value);
      }
    }
  }

  /** A weight table over the well-formed tables, with ids for them, keys
      every candidate. */
  lemma WeightTableKeyed(ids: map<Var, int>, w: map<Table, int>, prefs: Prefs, n: nat)
    requires ids == Numbering(VarOrder(n)) && WeightTable(w, prefs, n)
    ensures Keyed(ids, w, Candidates(n))
  {
    InterleavedIds(n);
    CandidatesMembers(n);
    CandidatesHaveIds(ids, n);
  }

  // -----------------------------------------------------------------------
  // What the reported numbers mean

  /** In 'min' mode the reported total, N minus the cost (8N eighths), is
      the weight of the chosen tables whenever the lists are well formed and
      every student sits at exactly one chosen table. */
  lemma MinimizingReport(ids: map<Var, int>, prefs: Prefs, n: nat, A: set<int>)
    requires IdsFor(ids, n) && ValidPrefs(prefs) && Seated(ids, A, n)
    ensures Keyed(ids, WeightsOf(prefs, n), Candidates(n))
    ensures var w := WeightsOf(prefs, n);
      8 * n - Cost(MinimizingSoft(ids, w, Candidates(n)), A) == ChosenWeight(ids, A, w, Candidates(n))
  {
    var w := WeightsOf(prefs, n);
    CandidatesFacts(n);
    forall t | WellFormed(t, n) ensures t in w && w[t] <= FullWeight(t) {
      WeightAtMostFull(prefs, t, n);
    }
    MinimizingDuality(ids, w, n, A);
  }

  /** In the full-weight maximizing mode the reported total, the sum of the
      soft weights minus the cost, is the weight of the chosen fully
      satisfied tables. */
  lemma FullOnlyReport(ids: map<Var, int>, prefs: Prefs, n: nat, A: set<int>)
    requires IdsFor(ids, n)
    ensures Keyed(ids, WeightsOf(prefs, n), Candidates(n))
    ensures var w := WeightsOf(prefs, n);
      var soft := FullSoft(ids, w, Candidates(n));
      TotalWeight(soft) - Cost(soft, A) == ChosenFullWeight(ids, A, w, Candidates(n))
  {
    CandidatesInjective(ids, n);
    CandidatesFacts(n);
    FullSoftTotal(ids, WeightsOf(prefs, n), Candidates(n), A);
  }
}
