/** The stand-alone scripts that number their students from 1:
    rc2_solver_minimizing.py (RC2, deficiency soft clauses),
    cp-sat_minimizing.py (CP-SAT, deficiency objective over every table) and
    cp-sat_maximizing.py (CP-SAT, positive-weight objective). Their model is
    built by module-level loops; here each script is a method returning what
    those loops leave behind. The CP-SAT variables are named by their
    creation index, counted from 1. */
module Scripts {
  import opened Tables
  import opened Cnf
  import opened Weights
  import opened Membership
  import opened Seating
  import opened Encoding
  import opened Decoding
  import opened Builders
  import opened Extraction
  import opened Solver
  import opened Grouped
  import opened Rows
  import CpSat

  // ---------------------------------------------------------------------
  // The hard part shared by the three scripts

  /** The single-assignment, validity and cardinality loops: the membership
      constraints of every student, the validity clauses of every pair and
      then every triple, and sum(y) == int(N * 4 / 7). */
  method HardPart(ids: map<Var, int>, n: nat, enc: OneOf, pairs: seq<Table>, triples: seq<Table>)
    returns (hard: seq<Constraint>)
    requires IdsFor(ids, n)
    requires pairs == PairsUpTo(1, n + 1, n + 1) && triples == TriplesUpTo(1, n + 1, n + 1)
    ensures hard == HardConstraints(ids, n, enc, SeatBound(n))
    ensures forall A :: AllHold(hard, A) <==>
      Seated(ids, A, n) && TablesFit(ids, A, n) && |set s | 1 <= s <= n && Flag(ids, A, s)| == SeatBound(n)
  {
    HardConstraintsParts(ids, n, enc, SeatBound(n));
    var a := SingleAssignmentLoop(ids, n, enc);
    var v := ValidityLoop(ids, pairs, triples);
    hard := a + Clauses(v) + [Exactly(FlagIds(ids, n), SeatBound(n))];
    forall A ensures AllHold(hard, A) <==>
      Seated(ids, A, n) && TablesFit(ids, A, n) && |set s | 1 <= s <= n && Flag(ids, A, s)| == SeatBound(n)
    {
      HardSemantics(ids, n, enc, SeatBound(n), A);
    }
  }

  // ---------------------------------------------------------------------
  // rc2_solver_minimizing.py

  /** The model the script hands to RC2: ids from the interleaved counter,
      the pairwise exactly-one encoding, the validity clauses and the seat
      count, and a soft [-x] of weight 2 - w or 3 - w for every table below
      its full weight. Every soft weight is positive. */
  method MinimizingScript(n: nat, prefs: Prefs)
    returns (ids: map<Var, int>, pairs: seq<Table>, triples: seq<Table>, varIndex: int,
             hard: seq<Constraint>, w: map<Table, int>, soft: seq<Soft>)
    ensures ids == Numbering(VarOrder(n)) && IdsFor(ids, n)
    ensures pairs == PairsUpTo(1, n + 1, n + 1) && triples == TriplesUpTo(1, n + 1, n + 1)
    ensures varIndex == C2(n) + C3(n) + n + 1
    ensures hard == HardConstraints(ids, n, PairwiseClauses, SeatBound(n))
    ensures w == WeightsOf(prefs, n) && Keyed(ids, w, Candidates(n))
    ensures soft == MinimizingSoft(ids, w, Candidates(n))
    ensures forall c :: c in soft ==> 0 < c.weight <= 24
  {
    ids, pairs, triples, varIndex := NumberVariables(n);
    InterleavedIds(n);
    hard := HardPart(ids, n, PairwiseClauses, pairs, triples);
    w := CalculateWeights(prefs, n);
    WeightTableUnique(w, prefs, n);
    CandidatesHaveIds(ids, n);
    CandidatesFacts(n);
    soft := MinimizingLoop(ids, w, pairs + triples);
    forall t | t in Candidates(n) ensures 0 <= w[t] {
      WeightNonNegative(prefs, t);
    }
    MinimizingSoftWeights(ids, w, Candidates(n));
  }

  /** The extraction loop: nothing for a missing or empty solution, otherwise
      one group per true pair or triple id. When every student sits at
      exactly one chosen table the groups partition the class. */
  method MinimizingGroups(ids: map<Var, int>, n: nat, pairs: seq<Table>, triples: seq<Table>, solution: Option<seq<int>>)
    returns (groups: seq<set<int>>)
    requires ids == Numbering(VarOrder(n))
    requires pairs == PairsUpTo(1, n + 1, n + 1) && triples == TriplesUpTo(1, n + 1, n + 1)
    ensures IdsFor(ids, n) && forall t :: t in pairs + triples ==> X(t) in ids
    ensures solution.None? || solution.value == [] ==> groups == []
    ensures solution.Some? && solution.value != [] ==> groups == Decode(ids, pairs, triples, solution.value)
    ensures solution.Some? && Seated(ids, TrueIds(solution.value), n) ==> PartitionOf(groups, n)
  {
    InterleavedIds(n);
    CandidatesInjective(ids, n);
    if solution.None? || solution.value == [] {
      groups := [];
      if solution.Some? && Seated(ids, TrueIds(solution.value), n) {
        DecodedPartition(ids, n, solution.value);
        assert DecodedKeys(Decoder(ids, pairs, triples), []) == [];
      }
      return;
    }
    groups := Extraction.ExtractSolution(Inverse(ids, pairs), Inverse(ids, triples), solution.value);
    if Seated(ids, TrueIds(solution.value), n) {
      DecodedPartition(ids, n, solution.value);
    }
  }

  /** For one id v, the total of w.get(t, 0) over the tables of ts whose
      id is v. */
  function MatchSum(ids: map<Var, int>, w: map<Table, int>, ts: seq<Table>, v: int): int
    requires forall t :: t in ts ==> X(t) in ids
  {
    if ts == [] then 0
    else
      var t := ts[|ts| - 1];
      MatchSum(ids, w, ts[..|ts| - 1], v) + (if ids[X(t)] == v then WeightOr0(w, t) else 0)
  }

  /** What calculate_satisfied_weights adds up from one dictionary: for
      every positive literal of the solution, the weights of the tables
      carrying that id. */
  function SatisfiedSum(ids: map<Var, int>, w: map<Table, int>, ts: seq<Table>, solution: seq<int>): int
    requires forall t :: t in ts ==> X(t) in ids
  {
    if solution == [] then 0
    else
      var v := solution[|solution| - 1];
      SatisfiedSum(ids, w, ts, solution[..|solution| - 1]) + (if v > 0 then MatchSum(ids, w, ts, v) else 0)
  }

  /** calculate_satisfied_weights: the two accumulators of its nested loops
      end as the sums over the pair and the triple dictionary. */
  method SatisfiedWeights(solution: seq<int>, ids: map<Var, int>, pairs: seq<Table>, triples: seq<Table>, w: map<Table, int>)
    returns (total: int)
    requires forall t :: t in pairs + triples ==> X(t) in ids
    ensures total == SatisfiedSum(ids, w, pairs, solution) + SatisfiedSum(ids, w, triples, solution)
  {
    assert forall t :: t in pairs ==> t in pairs + triples;
    assert forall t :: t in triples ==> t in pairs + triples;
    var satisfiedWij, satisfiedWijk := 0, 0;
    var p := 0;
    while p < |solution|
      invariant 0 <= p <= |solution|
      invariant satisfiedWij == SatisfiedSum(ids, w, pairs, solution[..p])
      invariant satisfiedWijk == SatisfiedSum(ids, w, triples, solution[..p])
    {
      assert solution[..p + 1][..p] == solution[..p];
      var v := solution[p];
      if v > 0 {
        var found := MatchLoop(ids, w, pairs, v);
        satisfiedWij := satisfiedWij + found;
        found := MatchLoop(ids, w, triples, v);
        satisfiedWijk := satisfiedWijk + found;
      }
      p := p + 1;
    }
    assert solution[..|solution|] == solution;
    total := satisfiedWij + satisfiedWijk;
  }

  /** One inner loop of calculate_satisfied_weights: w.get(t, 0) for every
      table of ts whose id is v. */
  method MatchLoop(ids: map<Var, int>, w: map<Table, int>, ts: seq<Table>, v: int) returns (found: int)
    requires forall t :: t in ts ==> X(t) in ids
    ensures found == MatchSum(ids, w, ts, v)
  {
    found := 0;
    var q := 0;
    while q < |ts|
      invariant 0 <= q <= |ts|
      invariant found == MatchSum(ids, w, ts[..q], v)
    {
      assert ts[..q + 1][..q] == ts[..q];
      if ids[X(ts[q])] == v {
        found := found + WeightOr0(w, ts[q]);
      }
      q := q + 1;
    }
    assert ts[..|ts|] == ts;
  }

  /** With distinct tables under distinct ids, the tables carrying id v are
      the one the inverse dictionary finds for v, or none. */
  lemma {:induction false} MatchSumInverse(ids: map<Var, int>, w: map<Table, int>, ts: seq<Table>, v: int)
    requires forall t :: t in ts ==> X(t) in ids
    requires Distinct(ts) && Injective(ids, ts)
    ensures MatchSum(ids, w, ts, v) == if v in Inverse(ids, ts) then WeightOr0(w, Inverse(ids, ts)[v]) else 0
  {
    if ts != [] {
      var init, t := ts[..|ts| - 1], ts[|ts| - 1];
      assert forall u :: u in init ==> u in ts;
      assert Distinct(init);
      MatchSumInverse(ids, w, init, v);
      if ids[X(t)] == v {
        assert t !in init;
        assert v !in Inverse(ids, init);
      }
    }
  }

  /** Summing one dictionary over the solution is re-scoring the tables its
      inverse finds. */
  lemma {:induction false} SatisfiedAsDecoded(ids: map<Var, int>, w: map<Table, int>, ts: seq<Table>, solution: seq<int>)
    requires forall t :: t in ts ==> X(t) in ids
    requires Distinct(ts) && Injective(ids, ts)
    ensures SatisfiedSum(ids, w, ts, solution) == TableSum(w, DecodedTables(Inverse(ids, ts), solution))
  {
    if solution != [] {
      var init, v := solution[..|solution| - 1], solution[|solution| - 1];
      SatisfiedAsDecoded(ids, w, ts, init);
      var inv := Inverse(ids, ts);
      if v > 0 {
        MatchSumInverse(ids, w, ts, v);
      }
      if v > 0 && v in inv {
        TableSumSnoc(w, DecodedTables(inv, init), inv[v]);
      } else {
        assert DecodedTables(inv, init) + [] == DecodedTables(inv, init);
      }
    }
  }

  /** One dictionary's sum is the weight of its chosen tables, on a
      solution that lists no literal twice. */
  lemma SatisfiedIsChosenPart(ids: map<Var, int>, w: map<Table, int>, ts: seq<Table>, solution: seq<int>)
    requires forall t :: t in ts ==> X(t) in ids && t in w
    requires Distinct(ts) && Injective(ids, ts) && Distinct(solution)
    ensures SatisfiedSum(ids, w, ts, solution) == ChosenWeight(ids, TrueIds(solution), w, ts)
  {
    SatisfiedAsDecoded(ids, w, ts, solution);
    DecoderWithoutPairs(ids, ts);
    DecodedWeightIsChosen(ids, [], ts, w, solution);
  }

  lemma DecoderWithoutPairs(ids: map<Var, int>, ts: seq<Table>)
    requires forall t :: t in ts ==> X(t) in ids
    ensures [] + ts == ts
    ensures Decoder(ids, [], ts) == Inverse(ids, ts)
  {
    assert [] + ts == ts;
    assert Inverse(ids, []) == map[];
  }

  lemma {:induction false} ChosenWeightConcat(ids: map<Var, int>, A: set<int>, w: map<Table, int>, u: seq<Table>, v: seq<Table>)
    requires forall t :: t in u + v ==> t in w
    ensures forall t :: t in u ==> t in w
    ensures forall t :: t in v ==> t in w
    ensures ChosenWeight(ids, A, w, u + v) == ChosenWeight(ids, A, w, u) + ChosenWeight(ids, A, w, v)
    decreases |v|
  {
    assert forall t :: t in u ==> t in u + v;
    assert forall t :: t in v ==> t in u + v;
    if v == [] {
      assert u + v == u;
    } else {
      var init := v[..|v| - 1];
      assert (u + v)[..|u + v| - 1] == u + init;
      ChosenWeightConcat(ids, A, w, u, init);
    }
  }

  /** The pair and the triple candidates each have ids, weights, no
      repeats and distinct ids. */
  lemma PartsKeyed(ids: map<Var, int>, n: nat, w: map<Table, int>, prefs: Prefs)
    requires IdsFor(ids, n) && WeightTable(w, prefs, n)
    ensures var pairs, triples := PairsUpTo(1, n + 1, n + 1), TriplesUpTo(1, n + 1, n + 1);
      (forall t :: t in pairs ==> X(t) in ids && t in w) && Distinct(pairs) && Injective(ids, pairs) &&
      (forall t :: t in triples ==> X(t) in ids && t in w) && Distinct(triples) && Injective(ids, triples) &&
      (forall t :: t in pairs + triples ==> t in w)
  {
    var pairs, triples := PairsUpTo(1, n + 1, n + 1), TriplesUpTo(1, n + 1, n + 1);
    PairsUpToFacts(1, n + 1, n + 1);
    TriplesUpToFacts(1, n + 1, n + 1);
    assert forall t :: t in pairs ==> ValidVar(X(t), n);
    assert forall t :: t in triples ==> ValidVar(X(t), n);
  }

  /** calculate_satisfied_weights reports the weight of the chosen tables
      whenever the solution lists no literal twice, as an RC2 model does. */
  lemma SatisfiedIsChosen(ids: map<Var, int>, n: nat, prefs: Prefs, solution: seq<int>)
    requires ids == Numbering(VarOrder(n)) && Distinct(solution)
    ensures forall t :: t in Candidates(n) ==> X(t) in ids
    ensures var pairs, triples, w := PairsUpTo(1, n + 1, n + 1), TriplesUpTo(1, n + 1, n + 1), WeightsOf(prefs, n);
      SatisfiedSum(ids, w, pairs, solution) + SatisfiedSum(ids, w, triples, solution)
      == ChosenWeight(ids, TrueIds(solution), w, Candidates(n))
  {
    var pairs, triples, w := PairsUpTo(1, n + 1, n + 1), TriplesUpTo(1, n + 1, n + 1), WeightsOf(prefs, n);
    InterleavedIds(n);
    PartsKeyed(ids, n, w, prefs);
    SatisfiedIsChosenPart(ids, w, pairs, solution);
    SatisfiedIsChosenPart(ids, w, triples, solution);
    ChosenWeightConcat(ids, TrueIds(solution), w, pairs, triples);
  }

  // ---------------------------------------------------------------------
  // cp-sat_minimizing.py

  /** Every member of every table of ts has a preference list: the script
      reads preferences[v] for them and raises KeyError otherwise. */
  predicate Listed(prefs: Prefs, ts: seq<Table>)
  {
    forall t, s :: t in ts && s in Members(t) ==> s in prefs
  }

  /** The coefficients of the minimized sum read the lists as sets: the
      set-membership weight of every candidate table. */
  function SetWeightsOf(prefs: Prefs, n: nat): (r: map<Table, int>)
    ensures forall t :: t in r <==> WellFormed(t, n)
    ensures forall t :: t in r ==> 0 <= r[t] <= FullWeight(t)
  {
    CandidatesFacts(n);
    var r := map t | t in Candidates(n) :: SetWeight(prefs, t);
    assert forall t :: t in r ==> 0 <= r[t] <= FullWeight(t) by {
      forall t | t in r ensures 0 <= r[t] <= FullWeight(t) {
        SetWeightAtMostFull(prefs, t, 1, n);
      }
    }
    r
  }

  /** The minimized sum, table by table: (2 - 2 [j in P(i)] [i in P(j)]) * x
      for a pair and (3 - 3 |{j,k} & P(i)| |{i,k} & P(j)| |{i,j} & P(k)| / 8) * x
      for a triple, in eighths, with sw the set weights; unlike the soft
      clauses of the MaxSAT scripts, tables of full weight keep their
      (zero) term. */
  function DeficiencyTerms(ids: map<Var, int>, sw: map<Table, int>, ts: seq<Table>): seq<Term>
    requires Keyed(ids, sw, ts)
  {
    if ts == [] then []
    else
      var t := ts[|ts| - 1];
      DeficiencyTerms(ids, sw, ts[..|ts| - 1]) + [Term(FullWeight(t) - sw[t], ids[X(t)])]
  }

  /** One term per table, in order, on the table's variable, whose
      coefficient is the table's full weight less its set weight. */
  lemma {:induction false} DeficiencyTermsShape(ids: map<Var, int>, sw: map<Table, int>, ts: seq<Table>)
    requires Keyed(ids, sw, ts)
    ensures var terms := DeficiencyTerms(ids, sw, ts);
      |terms| == |ts| &&
      forall p :: 0 <= p < |ts| ==> terms[p] == Term(FullWeight(ts[p]) - sw[ts[p]], ids[X(ts[p])])
  {
    if ts != [] {
      var init, t := ts[..|ts| - 1], ts[|ts| - 1];
      assert forall u :: u in init ==> u in ts;
      DeficiencyTermsShape(ids, sw, init);
      var prev := DeficiencyTerms(ids, sw, init);
      var terms := prev + [Term(FullWeight(t) - sw[t], ids[X(t)])];
      assert DeficiencyTerms(ids, sw, ts) == terms;
      forall p | 0 <= p < |ts|
        ensures terms[p] == Term(FullWeight(ts[p]) - sw[ts[p]], ids[X(ts[p])])
      {
        if p < |init| {
          assert terms[p] == prev[p] && ts[p] == init[p];
        }
      }
    }
  }

  /** The sum at an assignment is 8 per chosen seat less the chosen set
      weight. */
  lemma {:induction false} DeficiencyValue(ids: map<Var, int>, sw: map<Table, int>, ts: seq<Table>, A: set<int>)
    requires Keyed(ids, sw, ts)
    ensures Value(DeficiencyTerms(ids, sw, ts), A) == 8 * ChosenSeats(ids, A, ts) - ChosenWeight(ids, A, sw, ts)
  {
    if ts != [] {
      var init, t := ts[..|ts| - 1], ts[|ts| - 1];
      assert forall u :: u in init ==> u in ts;
      DeficiencyValue(ids, sw, init, A);
      ValueSnoc(DeficiencyTerms(ids, sw, init), Term(FullWeight(t) - sw[t], ids[X(t)]), A);
    }
  }

  /** d is a coefficient table t can get: 0 or 2 for a pair, and
      0, 3/2, 9/4, 21/8 or 3 for a triple. */
  predicate DeficiencyInRange(t: Table, d: int)
  {
    if t.Pair? then d == 0 || d == 16 else d in {0, 12, 18, 21, 24}
  }

  /** For any lists at all, every coefficient of the minimized sum is in
      range. */
  lemma DeficiencyOfTable(prefs: Prefs, t: Table, n: nat)
    requires WellFormed(t, n)
    ensures t in SetWeightsOf(prefs, n)
    ensures DeficiencyInRange(t, FullWeight(t) - SetWeightsOf(prefs, n)[t])
  {
    CandidatesFacts(n);
    SetDeficiencyValues(prefs, t, 1, n);
  }

  /** Every student's two lists hold the same entries. */
  ghost predicate SameEntries(prefs: Prefs, other: Prefs)
  {
    forall s, x :: x in Get(prefs, s) <==> x in Get(other, s)
  }

  /** The coefficients read the lists as sets: lists with the same entries,
      in any order and with any repeats, give the same sum. */
  lemma DeficiencyBySets(prefs: Prefs, other: Prefs, n: nat)
    requires SameEntries(prefs, other)
    ensures SetWeightsOf(prefs, n) == SetWeightsOf(other, n)
  {
    var a, b := SetWeightsOf(prefs, n), SetWeightsOf(other, n);
    CandidatesFacts(n);
    forall t | t in a ensures a[t] == b[t] {
      SetWeightBySets(prefs, other, t);
    }
  }

  lemma SetWeightBySets(prefs: Prefs, other: Prefs, t: Table)
    requires SameEntries(prefs, other)
    ensures SetWeight(prefs, t) == SetWeight(other, t)
  {
    match t {
      case Pair(i, j) =>
      case Triple(i, j, k) =>
        OverlapBySets(Get(prefs, i), Get(other, i), {j, k});
        OverlapBySets(Get(prefs, j), Get(other, j), {i, k});
        OverlapBySets(Get(prefs, k), Get(other, k), {i, j});
    }
  }

  lemma OverlapBySets(xs: seq<int>, ys: seq<int>, others: set<int>)
    requires forall x :: x in xs <==> x in ys
    ensures Overlap(xs, others) == Overlap(ys, others)
  {
    var e, f := set x | x in xs, set x | x in ys;
    assert e == f by {
      forall x ensures x in e <==> x in f {
        assert x in e <==> x in xs;
        assert x in f <==> x in ys;
      }
    }
  }

  /** On well-formed lists the set weights are the weights calculate_weights
      returns. */
  lemma SetWeightsAreWeights(prefs: Prefs, n: nat)
    requires ValidPrefs(prefs)
    ensures SetWeightsOf(prefs, n) == WeightsOf(prefs, n)
  {
    var a, b := SetWeightsOf(prefs, n), WeightsOf(prefs, n);
    CandidatesFacts(n);
    forall t | t in a ensures a[t] == b[t] {
      SetWeightsAgree(prefs, t, 1, n);
    }
  }

  /** With well-formed lists and every student at exactly one chosen table,
      the minimized sum is N minus the chosen weight (8N eighths). */
  lemma DeficiencyObjective(ids: map<Var, int>, prefs: Prefs, n: nat, A: set<int>)
    requires IdsFor(ids, n) && ValidPrefs(prefs) && Seated(ids, A, n)
    ensures Keyed(ids, SetWeightsOf(prefs, n), Candidates(n))
    ensures Value(DeficiencyTerms(ids, SetWeightsOf(prefs, n), Candidates(n)), A) ==
      8 * n - ChosenWeight(ids, A, WeightsOf(prefs, n), Candidates(n))
  {
    CandidatesFacts(n);
    CandidatesHaveIds(ids, n);
    SetWeightsAreWeights(prefs, n);
    DeficiencyValue(ids, WeightsOf(prefs, n), Candidates(n), A);
    SeatsFill(ids, A, n);
  }

  /** Every student of 1..N has a list, and N >= 2, or there is no table:
      then every candidate's members have lists. */
  lemma CandidatesListed(prefs: Prefs, n: nat)
    requires n >= 2 ==> forall s :: 1 <= s <= n ==> s in prefs
    ensures Listed(prefs, Candidates(n))
  {
    CandidatesFacts(n);
    forall t, s | t in Candidates(n) && s in Members(t) ensures s in prefs {
      MembersOfInRange(t, 1, n);
    }
  }

  /** For any lists, the minimized sum has one term per candidate, on its
      variable, with a coefficient in range. */
  lemma DeficiencyTermsRange(ids: map<Var, int>, prefs: Prefs, n: nat)
    requires IdsFor(ids, n)
    ensures Keyed(ids, SetWeightsOf(prefs, n), Candidates(n))
    ensures var ts, terms := Candidates(n), DeficiencyTerms(ids, SetWeightsOf(prefs, n), Candidates(n));
      |terms| == |ts| &&
      forall p :: 0 <= p < |ts| ==> terms[p].x == ids[X(ts[p])] && DeficiencyInRange(ts[p], terms[p].coef)
  {
    var ts, sw := Candidates(n), SetWeightsOf(prefs, n);
    CandidatesFacts(n);
    CandidatesHaveIds(ids, n);
    assert Keyed(ids, sw, ts);
    DeficiencyTermsShape(ids, sw, ts);
    var terms := DeficiencyTerms(ids, sw, ts);
    forall p | 0 <= p < |ts| ensures terms[p].x == ids[X(ts[p])] && DeficiencyInRange(ts[p], terms[p].coef) {
      assert terms[p] == Term(FullWeight(ts[p]) - sw[ts[p]], ids[X(ts[p])]);
      DeficiencyOfTable(prefs, ts[p], n);
    }
  }

  /** The model cp-sat_minimizing.py hands to CP-SAT: the grouped variables,
      sum(list) == 1 per student, the validity implications, the seat count,
      and the deficiency sum to minimize. The script reads preferences[i]
      for every student once N >= 2. */
  method CpSatMinimizingScript(n: nat, prefs: Prefs)
    returns (ids: map<Var, int>, pairs: seq<Table>, triples: seq<Table>,
             hard: seq<Constraint>, w: map<Table, int>, objective: seq<Term>)
    requires n >= 2 ==> forall s :: 1 <= s <= n ==> s in prefs
    ensures ids == Numbering(GroupedOrder(1, n + 1)) && IdsFor(ids, n)
    ensures pairs == PairsUpTo(1, n + 1, n + 1) && triples == TriplesUpTo(1, n + 1, n + 1)
    ensures hard == HardConstraints(ids, n, LinearSum, SeatBound(n))
    ensures w == WeightsOf(prefs, n)
    ensures Listed(prefs, Candidates(n))
    ensures Keyed(ids, SetWeightsOf(prefs, n), Candidates(n))
    ensures objective == DeficiencyTerms(ids, SetWeightsOf(prefs, n), Candidates(n))
    ensures ValidPrefs(prefs) ==> forall A :: Seated(ids, A, n) ==>
      Value(objective, A) == 8 * n - ChosenWeight(ids, A, w, Candidates(n))
  {
    var count;
    ids, pairs, triples, count := NumberGrouped(1, n + 1);
    GroupedIdsFor(n);
    hard := HardPart(ids, n, LinearSum, pairs, triples);
    w := CalculateWeights(prefs, n);
    WeightTableUnique(w, prefs, n);
    CandidatesListed(prefs, n);
    DeficiencyTermsRange(ids, prefs, n);
    objective := DeficiencyTerms(ids, SetWeightsOf(prefs, n), pairs + triples);
    if ValidPrefs(prefs) {
      forall A | Seated(ids, A, n)
        ensures Value(objective, A) == 8 * n - ChosenWeight(ids, A, w, Candidates(n))
      {
        DeficiencyObjective(ids, prefs, n, A);
      }
    }
  }

  /** The report of cp-sat_minimizing.py: the sorted rows of the chosen
      pairs, then triples, when CP-SAT found a solution, sorted as Python
      sorts lists; then the weight of the reported rows under
      calculate_weights. The rows are those of the chosen tables, sorted and
      with none lost or added, and their total is the chosen weight. */
  method CpSatMinimizingReport(ids: map<Var, int>, pairs: seq<Table>, triples: seq<Table>,
                               w: map<Table, int>, feasible: bool, A: set<int>)
    returns (tables: seq<seq<int>>, total: int)
    requires forall t :: t in pairs + triples ==> t in w
    ensures tables == SortRows(if feasible then ChosenRows(ids, A, pairs + triples) else [])
    ensures Sorted(tables)
    ensures multiset(tables) == multiset(if feasible then ChosenRows(ids, A, pairs + triples) else [])
    ensures total == if feasible then ChosenWeight(ids, A, w, pairs + triples) else 0
  {
    tables := SolvedTables(ids, pairs, triples, feasible, A);
    ghost var unsorted := tables;
    tables := SortRows(tables);
    SortRowsFacts(unsorted);
    total := RescoreTables(w, tables);
    RescoredSorted(w, unsorted);
    if feasible {
      RescoredIsChosen(ids, A, w, pairs + triples);
    }
  }

  // ---------------------------------------------------------------------
  // cp-sat_maximizing.py

  /** The model cp-sat_maximizing.py hands to CP-SAT: the weights first,
      then the interleaved variables, sum(list) == 1 per student, the
      validity implications, the seat count, and w * x for every table of
      positive weight, maximized. Its value at any assignment is the weight
      of the chosen tables. */
  method CpSatMaximizingScript(n: nat, prefs: Prefs)
    returns (ids: map<Var, int>, pairs: seq<Table>, triples: seq<Table>,
             hard: seq<Constraint>, w: map<Table, int>, objective: seq<Term>)
    ensures ids == Numbering(VarOrder(n)) && IdsFor(ids, n)
    ensures pairs == PairsUpTo(1, n + 1, n + 1) && triples == TriplesUpTo(1, n + 1, n + 1)
    ensures hard == HardConstraints(ids, n, LinearSum, SeatBound(n))
    ensures w == WeightsOf(prefs, n) && Keyed(ids, w, Candidates(n))
    ensures objective == PositiveTerms(ids, w, Candidates(n))
    ensures forall A :: Value(objective, A) == ChosenWeight(ids, A, w, Candidates(n))
  {
    w := CalculateWeights(prefs, n);
    WeightTableUnique(w, prefs, n);
    var next;
    ids, pairs, triples, next := NumberVariables(n);
    InterleavedIds(n);
    hard := HardPart(ids, n, LinearSum, pairs, triples);
    CandidatesInjective(ids, n);
    CandidatesFacts(n);
    objective := PositiveTermsLoop(ids, w, pairs + triples);
    forall A ensures Value(objective, A) == ChosenWeight(ids, A, w, Candidates(n)) {
      CpSat.MaximizedObjective(ids, prefs, n, A);
    }
  }

  /** The member set of every table of ts, in order. */
  function TableGroups(ts: seq<Table>): (r: seq<set<int>>)
    ensures |r| == |ts|
  {
    if ts == [] then [] else TableGroups(ts[..|ts| - 1]) + [Members(ts[|ts| - 1])]
  }

  /** The extraction of cp-sat_maximizing.py: a group per chosen pair, then
      per chosen triple, holding its students (each variable is its own
      key, so every group comes from one table). */
  method MaximizingGroups(ids: map<Var, int>, pairs: seq<Table>, triples: seq<Table>, feasible: bool, A: set<int>)
    returns (groups: seq<set<int>>)
    ensures groups == TableGroups(if feasible then ChosenTables(ids, A, pairs + triples) else [])
  {
    groups := [];
    if !feasible {
      return;
    }
    var ts := pairs + triples;
    var p := 0;
    while p < |ts|
      invariant 0 <= p <= |ts|
      invariant groups == TableGroups(ChosenTables(ids, A, ts[..p]))
    {
      assert ts[..p + 1][..p] == ts[..p];
      var t := ts[p];
      ghost var prev := ChosenTables(ids, A, ts[..p]);
      if X(t) in ids && ids[X(t)] in A {
        assert ChosenTables(ids, A, ts[..p + 1]) == prev + [t];
        assert (prev + [t])[..|prev + [t]| - 1] == prev;
        groups := groups + [Members(t)];
      } else {
        assert ChosenTables(ids, A, ts[..p + 1]) == prev;
      }
      p := p + 1;
    }
    assert ts[..|ts|] == ts;
  }

  lemma {:induction false} TableGroupsAt(ts: seq<Table>)
    ensures forall p :: 0 <= p < |ts| ==> TableGroups(ts)[p] == Members(ts[p])
  {
    if ts != [] {
      TableGroupsAt(ts[..|ts| - 1]);
    }
  }

  /** When every student sits at exactly one chosen table, the groups of
      cp-sat_maximizing.py do not overlap, and together they hold the
      students 1..N and no one else. */
  lemma MaximizingGroupsPartition(ids: map<Var, int>, n: nat, A: set<int>)
    requires Seated(ids, A, n)
    ensures PartitionOf(TableGroups(ChosenTables(ids, A, Candidates(n))), n)
  {
    var chosen := ChosenTables(ids, A, Candidates(n));
    CandidatesFacts(n);
    ChosenTablesFacts(ids, A, Candidates(n));
    TableGroupsAt(chosen);
    SeatingPartition(ids, A, n);
    MaximizingGroupsDisjoint(ids, n, A, chosen);
    MaximizingGroupsCover(ids, n, A, chosen);
  }

  lemma MaximizingGroupsDisjoint(ids: map<Var, int>, n: nat, A: set<int>, chosen: seq<Table>)
    requires Distinct(chosen)
    requires forall t :: t in chosen ==> WellFormed(t, n) && Chosen(ids, A, t)
    requires forall t, u ::
      (WellFormed(t, n) && WellFormed(u, n) && Chosen(ids, A, t) && Chosen(ids, A, u) && t != u) ==> Members(t) !! Members(u)
    requires forall p :: 0 <= p < |chosen| ==> TableGroups(chosen)[p] == Members(chosen[p])
    ensures var groups := TableGroups(chosen);
      forall p, q :: 0 <= p < q < |groups| ==> groups[p] !! groups[q]
  {
    var groups := TableGroups(chosen);
    forall p, q | 0 <= p < q < |groups| ensures groups[p] !! groups[q] {
      assert chosen[p] != chosen[q];
      assert chosen[p] in chosen && chosen[q] in chosen;
    }
  }

  lemma MaximizingGroupsCover(ids: map<Var, int>, n: nat, A: set<int>, chosen: seq<Table>)
    requires forall t :: t in chosen <==> WellFormed(t, n) && Chosen(ids, A, t)
    requires forall s :: 1 <= s <= n ==> AtSomeTable(ids, A, n, s)
    requires forall p :: 0 <= p < |chosen| ==> TableGroups(chosen)[p] == Members(chosen[p])
    ensures Flatten(TableGroups(chosen)) == Students(n)
  {
    var groups := TableGroups(chosen);
    forall s ensures s in Flatten(groups) <==> s in Students(n) {
      if s in Flatten(groups) {
        var p :| 0 <= p < |groups| && s in groups[p];
        assert chosen[p] in chosen;
        MembersOfInRange(chosen[p], 1, n);
      }
      if s in Students(n) {
        assert AtSomeTable(ids, A, n, s);
        var t :| WellFormed(t, n) && Chosen(ids, A, t) && s in Members(t);
        assert t in chosen;
        var p :| 0 <= p < |chosen| && chosen[p] == t;
        assert s in groups[p];
      }
    }
  }
}
