/** The CP-SAT solver class of cpsat_solver.py. Its variables are Boolean
    model variables rather than integer ids; here each is named by the id
    the interleaved numbering gives it, so that the constraints read like
    those of the SAT back ends: sum(list) == 1 per student, the validity
    implications x => y and x => not y, and sum(y) == int(N * 4 / 7). */
module CpSat {
  import opened Tables
  import opened Cnf
  import opened Weights
  import opened Membership
  import opened Seating
  import opened Encoding
  import opened Decoding
  import opened Builders
  import opened Extraction
  import opened Solver

  datatype Sense = Unset | Minimize | Maximize

  class TeamCompositionCPSATSolver {
    const n: nat
    const prefs: Prefs
    const encodingType: string

    const ids: map<Var, int>
    const pairs: seq<Table>
    const triples: seq<Table>
    const variableCount: int

    /** The constraints added to the model and the objective. */
    var hard: seq<Constraint>
    var objective: seq<Term>
    var sense: Sense
    var hardCount: int
    var softCount: int

    ghost predicate Valid()
    {
      ids == Numbering(VarOrder(n)) &&
      pairs == PairsUpTo(1, n + 1, n + 1) && triples == TriplesUpTo(1, n + 1, n + 1) &&
      variableCount == C2(n) + C3(n) + n
    }

    /** __init__ and _initialize_variables: one variable per pair, triple and
        seat flag, each counted. */
    constructor (numStudents: nat, preferences: Prefs, encodingType: string)
      ensures Valid()
      ensures n == numStudents && prefs == preferences && this.encodingType == encodingType
      ensures variableCount == C2(n) + C3(n) + n
      ensures hard == [] && objective == [] && sense == Unset && hardCount == 0 && softCount == 0
    {
      n := numStudents;
      prefs := preferences;
      this.encodingType := encodingType;
      var ids0, pairs0, triples0, next := NumberVariables(numStudents);
      ids, pairs, triples := ids0, pairs0, triples0;
      variableCount := next - 1;
      hard, objective, sense := [], [], Unset;
      hardCount, softCount := 0, 0;
    }

    /** add_hard_clauses: sum == 1 over each membership list, the validity
        implications and the seat count; one count per student, two per
        pair, three per triple and one for the seat count. */
    method AddHardClauses()
      requires Valid()
      modifies this
      ensures Valid()
      ensures objective == old(objective) && sense == old(sense) && softCount == old(softCount)
      ensures IdsFor(ids, n)
      ensures hard == old(hard) + HardConstraints(ids, n, LinearSum, SeatBound(n))
      ensures hardCount == old(hardCount) + n + 2 * C2(n) + 3 * C3(n) + 1
    {
      ValidityFacts(ids, n);
      HardConstraintsParts(ids, n, LinearSum, SeatBound(n));
      var a := SingleAssignmentLoop(ids, n, LinearSum);
      var v := ValidityLoop(ids, pairs, triples);
      var c := [Exactly(FlagIds(ids, n), SeatBound(n))];
      hard := hard + (a + Clauses(v) + c);
      hardCount := hardCount + n + |v| + 1;
    }

    /** add_soft_clauses: the minimized deficiency terms or the maximized
        positive-weight terms, each term counted; any other mode is a
        ValueError that leaves the model as it is. */
    method AddSoftClauses(w: map<Table, int>) returns (outcome: Outcome)
      requires Valid() && WeightTable(w, prefs, n)
      modifies this
      ensures Valid()
      ensures hard == old(hard) && hardCount == old(hardCount)
      ensures Keyed(ids, w, Candidates(n))
      ensures encodingType == "min" ==>
        outcome == Done && sense == Minimize && objective == MinimizingTerms(ids, w, Candidates(n)) &&
        softCount == old(softCount) + |MinimizingTerms(ids, w, Candidates(n))|
      ensures encodingType == "max" ==>
        outcome == Done && sense == Maximize && objective == PositiveTerms(ids, w, Candidates(n)) &&
        softCount == old(softCount) + |PositiveTerms(ids, w, Candidates(n))|
      ensures encodingType != "min" && encodingType != "max" ==>
        outcome.ValueError? && objective == old(objective) && sense == old(sense) && softCount == old(softCount)
    {
      WeightTableKeyed(ids, w, prefs, n);
      if encodingType == "min" {
        var terms := MinimizingTermsLoop(ids, w, pairs + triples);
        objective, sense := terms, Minimize;
        softCount := softCount + |terms|;
      } else if encodingType == "max" {
        var terms := PositiveTermsLoop(ids, w, pairs + triples);
        objective, sense := terms, Maximize;
        softCount := softCount + |terms|;
      } else {
        return ValueError("Invalid encoding type. Use 'min' for minimizing or 'max' for maximizing.");
      }
      outcome := Done;
    }

    /** solve, given the engine's status and the set of variables it set to
        1: the model is built, and when the status is OPTIMAL or FEASIBLE the
        sorted rows of the chosen pairs, then of the chosen triples, are
        returned. */
    method Solve(feasible: bool, A: set<int>) returns (outcome: Outcome, assignedTables: seq<seq<int>>)
      requires Valid() && hard == [] && hardCount == 0 && softCount == 0
      modifies this
      ensures Valid()
      ensures IdsFor(ids, n)
      ensures hard == HardConstraints(ids, n, LinearSum, SeatBound(n))
      ensures hardCount == n + 2 * C2(n) + 3 * C3(n) + 1
      ensures Keyed(ids, WeightsOf(prefs, n), Candidates(n))
      ensures encodingType == "min" ==> outcome == Done && objective == MinimizingTerms(ids, WeightsOf(prefs, n), Candidates(n))
      ensures encodingType == "max" ==> outcome == Done && objective == PositiveTerms(ids, WeightsOf(prefs, n), Candidates(n))
      ensures encodingType != "min" && encodingType != "max" ==> outcome.ValueError? && assignedTables == []
      ensures outcome == Done ==> assignedTables == if feasible then ChosenRows(ids, A, Candidates(n)) else []
    {
      AddHardClauses();
      assert hard == HardConstraints(ids, n, LinearSum, SeatBound(n)) by {
        assert [] + HardConstraints(ids, n, LinearSum, SeatBound(n)) == HardConstraints(ids, n, LinearSum, SeatBound(n));
      }
      var w := CalculateWeights(prefs, n);
      WeightTableUnique(w, prefs, n);
      outcome := AddSoftClauses(w);
      if outcome.ValueError? {
        return outcome, [];
      }
      assignedTables := SolvedTables(ids, pairs, triples, feasible, A);
    }

    /** extract_solution_and_calculate_weights: the weights are recomputed
        and wij or wijk added for each reported two- or three-table. */
    method ExtractSolutionAndCalculateWeights(assignedTables: seq<seq<int>>) returns (total: int)
      requires Valid()
      ensures total == RescoredWeight(WeightsOf(prefs, n), assignedTables)
      ensures forall A :: assignedTables == ChosenRows(ids, A, Candidates(n)) ==>
        total == ChosenWeight(ids, A, WeightsOf(prefs, n), Candidates(n))
    {
      var w := CalculateWeights(prefs, n);
      WeightTableUnique(w, prefs, n);
      total := RescoreTables(w, assignedTables);
      CandidatesFacts(n);
      forall A | assignedTables == ChosenRows(ids, A, Candidates(n))
        ensures total == ChosenWeight(ids, A, w, Candidates(n))
      {
        RescoredIsChosen(ids, A, w, Candidates(n));
      }
    }

    /** get_stats */
    method GetStats() returns (hardClauses: int, softClauses: int, variables: int)
      requires Valid()
      ensures hardClauses == hardCount && softClauses == softCount && variables == C2(n) + C3(n) + n
    {
      hardClauses, softClauses, variables := hardCount, softCount, variableCount;
    }
  }

  /** The minimized objective is the total deficiency of the chosen tables,
      so with well-formed lists and every student seated it is N minus the
      chosen weight (8N eighths). */
  lemma MinimizedObjective(ids: map<Var, int>, prefs: Prefs, n: nat, A: set<int>)
    requires IdsFor(ids, n) && ValidPrefs(prefs) && Seated(ids, A, n)
    ensures Keyed(ids, WeightsOf(prefs, n), Candidates(n))
    ensures var w := WeightsOf(prefs, n);
      Value(MinimizingTerms(ids, w, Candidates(n)), A) == 8 * n - ChosenWeight(ids, A, w, Candidates(n))
  {
    var w := WeightsOf(prefs, n);
    CandidatesInjective(ids, n);
    MinimizingReport(ids, prefs, n, A);
    MinimizingTermsMatch(ids, w, Candidates(n), A);
  }

  /** The maximized objective is the weight of the chosen tables: a table of
      weight 0 adds nothing whether or not it has a term. */
  lemma MaximizedObjective(ids: map<Var, int>, prefs: Prefs, n: nat, A: set<int>)
    requires IdsFor(ids, n)
    ensures Keyed(ids, WeightsOf(prefs, n), Candidates(n))
    ensures var w := WeightsOf(prefs, n);
      Value(PositiveTerms(ids, w, Candidates(n)), A) == ChosenWeight(ids, A, w, Candidates(n))
  {
    var w := WeightsOf(prefs, n);
    CandidatesInjective(ids, n);
    CandidatesFacts(n);
    forall t | t in Candidates(n) ensures w[t] >= 0 {
      WeightNonNegative(prefs, t);
    }
    PositiveTermsMatch(ids, w, Candidates(n), A);
    PositiveSoftGain(ids, w, Candidates(n), A);
  }
}
