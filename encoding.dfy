/** The constraint lists the TCPC solvers hand to their back ends, as
    functions of the variable ids and the weights, and what those lists
    mean for an assignment. */
module Encoding {
  import opened Tables
  import opened Cnf
  import opened Weights
  import opened Membership
  import opened Seating

  // ---------------------------------------------------------------------
  // Exactly one table per student

  /** How a solver says "exactly one of these ids is true". */
  datatype OneOf =
    | CardinalityAtMost  // CardEnc.atmost(lits, 1) followed by the clause lits
    | LinearSum          // sum(lits) == 1
    | PairwiseClauses    // the clause lits followed by [-a, -b] for every two of them

  function EncodeOne(enc: OneOf, lits: seq<int>): seq<Constraint>
  {
    match enc
    case CardinalityAtMost => [AtMost(lits, 1), Clause(lits)]
    case LinearSum => [Exactly(lits, 1)]
    case PairwiseClauses => [Clause(lits)] + Clauses(AtMostOnePairwise(lits))
  }

  /** Each encoding holds exactly when one literal of the list is true. */
  lemma EncodeOneSemantics(enc: OneOf, lits: seq<int>, A: set<int>)
    requires forall p :: 0 <= p < |lits| ==> lits[p] > 0
    ensures AllHold(EncodeOne(enc, lits), A) <==> ExactlyOne(lits, A)
  {
    CountTrueBounds(lits, A);
    ExactlyOneCount(lits, A);
    match enc
    case CardinalityAtMost =>
      var cs := EncodeOne(enc, lits);
      assert cs[0] == AtMost(lits, 1) && cs[1] == Clause(lits);
      assert AllHold(cs, A) <==> Holds(cs[0], A) && Holds(cs[1], A);
    case LinearSum =>
      var cs := EncodeOne(enc, lits);
      assert AllHold(cs, A) <==> Holds(cs[0], A);
    case PairwiseClauses =>
      ExactlyOnePairwise(lits, A);
      assert AllHold([Clause(lits)], A) <==> ClauseSat(lits, A) by {
        assert AllHold([Clause(lits)], A) <==> Holds([Clause(lits)][0], A);
      }
      AllHoldConcat([Clause(lits)], Clauses(AtMostOnePairwise(lits)), A);
      AllHoldClauses(AtMostOnePairwise(lits), A);
  }

  /** The constraints of students 1..m, student after student. */
  function AssignmentConstraints(ids: map<Var, int>, n: int, m: int, enc: OneOf): seq<Constraint>
    requires IdsFor(ids, n) && m <= n
  {
    if m <= 0 then [] else AssignmentConstraints(ids, n, m - 1, enc) + EncodeOne(enc, MembershipIds(ids, m, n))
  }

  lemma {:induction false} AssignmentSemantics(ids: map<Var, int>, n: int, m: int, enc: OneOf, A: set<int>)
    requires IdsFor(ids, n) && m <= n
    ensures AllHold(AssignmentConstraints(ids, n, m, enc), A) <==> SeatedUpTo(ids, A, n, m)
    decreases m
  {
    if m > 0 {
      AssignmentSemantics(ids, n, m - 1, enc, A);
      var prev := AssignmentConstraints(ids, n, m - 1, enc);
      ghost var before := SeatedUpTo(ids, A, n, m - 1);
      assert AllHold(prev, A) <==> before;
      var lits := MembershipIds(ids, m, n);
      AllHoldConcat(prev, EncodeOne(enc, lits), A);
      EncodeOneSemantics(enc, lits, A);
      MembershipSemantics(ids, m, n, A);
      SeatedUpToStep(ids, A, n, m);
      IffStep(AllHold(prev + EncodeOne(enc, lits), A), AllHold(prev, A), AllHold(EncodeOne(enc, lits), A),
              ExactlyOne(lits, A), SeatedOnce(ids, A, n, m), SeatedUpTo(ids, A, n, m), before);
    }
  }

  /** The propositional step of the induction above. */
  lemma IffStep(all: bool, prev: bool, step: bool, one: bool, seated: bool, upTo: bool, before: bool)
    requires all <==> prev && step
    requires step <==> one
    requires one <==> seated
    requires upTo <==> before && seated
    requires prev <==> before
    ensures all <==> upTo
  {
  }

  /** Students 1..m each sit at exactly one chosen table. */
  ghost predicate SeatedUpTo(ids: map<Var, int>, A: set<int>, n: int, m: int)
  {
    forall i :: 1 <= i <= m ==> SeatedOnce(ids, A, n, i)
  }

  lemma SeatedUpToStep(ids: map<Var, int>, A: set<int>, n: int, m: int)
    requires m > 0
    ensures SeatedUpTo(ids, A, n, m) <==> SeatedUpTo(ids, A, n, m - 1) && SeatedOnce(ids, A, n, m)
  {
  }

  lemma {:induction false} AssignmentLength(ids: map<Var, int>, n: int, m: int)
    requires IdsFor(ids, n) && m <= n
    ensures |AssignmentConstraints(ids, n, m, CardinalityAtMost)| == 2 * (if m < 0 then 0 else m)
    ensures |AssignmentConstraints(ids, n, m, LinearSum)| == (if m < 0 then 0 else m)
    decreases m
  {
    if m > 0 {
      AssignmentLength(ids, n, m - 1);
    }
  }

  // ---------------------------------------------------------------------
  // All hard constraints

  /** The hard part of the model: the membership constraints, the validity
      clauses of every candidate, and the seat count sum(y) == bound. */
  function HardConstraints(ids: map<Var, int>, n: nat, enc: OneOf, bound: int): seq<Constraint>
    requires IdsFor(ids, n)
  {
    CandidatesHaveIds(ids, n);
    FlagCount(ids, n, {});
    AssignmentConstraints(ids, n, n, enc) + Clauses(ValidityClauses(ids, Candidates(n)))
    + [Exactly(FlagIds(ids, n), bound)]
  }

  /** An assignment satisfies the hard constraints iff every student sits at
      exactly one chosen table, the seat flags fit the chosen tables, and
      bound students have their seat flag set. */
  lemma HardSemantics(ids: map<Var, int>, n: nat, enc: OneOf, bound: int, A: set<int>)
    requires IdsFor(ids, n)
    ensures AllHold(HardConstraints(ids, n, enc, bound), A) <==>
      Seated(ids, A, n) && TablesFit(ids, A, n) && |set s | 1 <= s <= n && Flag(ids, A, s)| == bound
  {
    CandidatesHaveIds(ids, n);
    FlagCount(ids, n, A);
    var a := AssignmentConstraints(ids, n, n, enc);
    var v := Clauses(ValidityClauses(ids, Candidates(n)));
    var c := [Exactly(FlagIds(ids, n), bound)];
    AllHoldConcat(a + v, c, A);
    AllHoldConcat(a, v, A);
    assert AllHold(c, A) <==> Holds(c[0], A);
    AssignmentSemantics(ids, n, n, enc, A);
    assert SeatedUpTo(ids, A, n, n) <==> Seated(ids, A, n);
    AllHoldClauses(ValidityClauses(ids, Candidates(n)), A);
    AllValiditySemantics(ids, n, A);
  }

  // ---------------------------------------------------------------------
  // Weights of the candidates

  /** w holds the weight of every candidate table, as calculate_weights
      returns it (the two dictionaries wij and wijk in one map). */
  ghost predicate WeightTable(w: map<Table, int>, prefs: Prefs, n: int)
  {
    (forall t :: t in w <==> WellFormed(t, n)) &&
    (forall t :: t in w ==> w[t] == Weight(prefs, t))
  }

  /** The tables ts have ids and weights. */
  ghost predicate Keyed(ids: map<Var, int>, w: map<Table, int>, ts: seq<Table>)
  {
    forall t :: t in ts ==> t in w && X(t) in ids
  }

  /** The total of w over the chosen tables of ts. */
  function ChosenWeight(ids: map<Var, int>, A: set<int>, w: map<Table, int>, ts: seq<Table>): int
    requires forall t :: t in ts ==> t in w
  {
    if ts == [] then 0
    else
      var last := ts[|ts| - 1];
      ChosenWeight(ids, A, w, ts[..|ts| - 1]) + (if Chosen(ids, A, last) then w[last] else 0)
  }

  /** The number of seats of the chosen tables of ts. */
  function ChosenSeats(ids: map<Var, int>, A: set<int>, ts: seq<Table>): nat
  {
    if ts == [] then 0
    else
      var last := ts[|ts| - 1];
      ChosenSeats(ids, A, ts[..|ts| - 1]) + (if Chosen(ids, A, last) then Size(last) else 0)
  }

  /** The students at the chosen tables of ts. */
  function ChosenMembers(ids: map<Var, int>, A: set<int>, ts: seq<Table>): set<int>
  {
    if ts == [] then {}
    else
      var last := ts[|ts| - 1];
      ChosenMembers(ids, A, ts[..|ts| - 1]) + (if Chosen(ids, A, last) then Members(last) else {})
  }

  lemma {:induction false} ChosenMembersFacts(ids: map<Var, int>, A: set<int>, ts: seq<Table>)
    ensures forall s :: s in ChosenMembers(ids, A, ts) <==>
      exists t :: t in ts && Chosen(ids, A, t) && s in Members(t)
  {
    if ts != [] {
      var init := ts[..|ts| - 1];
      ChosenMembersFacts(ids, A, init);
      assert forall t :: t in ts <==> t in init || t == ts[|ts| - 1];
    }
  }

  /** Chosen tables that share no student fill as many seats as they seat
      students. */
  lemma {:induction false} SeatsOfDisjoint(ids: map<Var, int>, A: set<int>, ts: seq<Table>, n: int)
    requires Distinct(ts) && forall t :: t in ts ==> WellFormed(t, n)
    requires forall t, u ::
      (t in ts && u in ts && Chosen(ids, A, t) && Chosen(ids, A, u) && t != u) ==> Members(t) !! Members(u)
    ensures ChosenSeats(ids, A, ts) == |ChosenMembers(ids, A, ts)|
  {
    if ts != [] {
      var init, last := ts[..|ts| - 1], ts[|ts| - 1];
      assert forall t :: t in init ==> t in ts;
      SeatsOfDisjoint(ids, A, init, n);
      if Chosen(ids, A, last) {
        ChosenMembersFacts(ids, A, init);
        assert last !in init;
        assert Members(last) !! ChosenMembers(ids, A, init);
        MembersOfInRange(last, 1, n);
      }
    }
  }

  /** The students 1..n. */
  function Students(n: int): (r: set<int>)
    ensures forall s :: s in r <==> 1 <= s <= n
    ensures |r| == if n < 0 then 0 else n
  {
    if n <= 0 then {} else Students(n - 1) + {n}
  }

  /** When every student sits at exactly one chosen table, the chosen tables
      have exactly n seats. */
  lemma SeatsFill(ids: map<Var, int>, A: set<int>, n: nat)
    requires Seated(ids, A, n)
    ensures ChosenSeats(ids, A, Candidates(n)) == n
  {
    var ts := Candidates(n);
    CandidatesFacts(n);
    SeatingPartition(ids, A, n);
    SeatsOfDisjoint(ids, A, ts, n);
    ChosenMembersFacts(ids, A, ts);
    forall s ensures s in ChosenMembers(ids, A, ts) <==> 1 <= s <= n {
      if s in ChosenMembers(ids, A, ts) {
        var t :| t in ts && Chosen(ids, A, t) && s in Members(t);
        MembersOfInRange(t, 1, n);
      }
      if 1 <= s <= n {
        assert AtSomeTable(ids, A, n, s);
      }
    }
    assert ChosenMembers(ids, A, ts) == Students(n);
  }


  // ---------------------------------------------------------------------
  // Soft clauses of the MaxSAT encodings

  /** Minimizing: [-x] with weight 2 - w (pairs) or 3 - w (triples) for every
      table below its full weight. */
  function MinimizingSoft(ids: map<Var, int>, w: map<Table, int>, ts: seq<Table>): seq<Soft>
    requires Keyed(ids, w, ts)
  {
    if ts == [] then []
    else
      var t := ts[|ts| - 1];
      MinimizingSoft(ids, w, ts[..|ts| - 1])
      + (if w[t] < FullWeight(t) then [Soft([-ids[X(t)]], FullWeight(t) - w[t])] else [])
  }

  /** Maximizing with pruning: [x] with weight w for every table of positive
      weight. */
  function PositiveSoft(ids: map<Var, int>, w: map<Table, int>, ts: seq<Table>): seq<Soft>
    requires Keyed(ids, w, ts)
  {
    if ts == [] then []
    else
      var t := ts[|ts| - 1];
      PositiveSoft(ids, w, ts[..|ts| - 1]) + (if w[t] > 0 then [Soft([ids[X(t)]], w[t])] else [])
  }

  /** Maximizing with pruning: the hard unit clause [-x] for every table
      whose weight is not positive. */
  function ZeroUnits(ids: map<Var, int>, w: map<Table, int>, ts: seq<Table>): seq<seq<int>>
    requires Keyed(ids, w, ts)
  {
    if ts == [] then []
    else
      var t := ts[|ts| - 1];
      ZeroUnits(ids, w, ts[..|ts| - 1]) + (if w[t] > 0 then [] else [[-ids[X(t)]]])
  }

  /** Maximizing over fully satisfied tables: [x] with weight 2 or 3 for every
      table at its full weight. */
  function FullSoft(ids: map<Var, int>, w: map<Table, int>, ts: seq<Table>): seq<Soft>
    requires Keyed(ids, w, ts)
  {
    if ts == [] then []
    else
      var t := ts[|ts| - 1];
      FullSoft(ids, w, ts[..|ts| - 1]) + (if w[t] == FullWeight(t) then [Soft([ids[X(t)]], w[t])] else [])
  }

  /** Pruning of the SAT solvers: the hard unit clause [-x] for every table
      below or above its full weight. */
  function PruneUnits(ids: map<Var, int>, w: map<Table, int>, ts: seq<Table>): seq<seq<int>>
    requires Keyed(ids, w, ts)
  {
    if ts == [] then []
    else
      var t := ts[|ts| - 1];
      PruneUnits(ids, w, ts[..|ts| - 1]) + (if w[t] != FullWeight(t) then [[-ids[X(t)]]] else [])
  }

  /** The total of w over the chosen tables of ts that are at full weight. */
  function ChosenFullWeight(ids: map<Var, int>, A: set<int>, w: map<Table, int>, ts: seq<Table>): int
    requires forall t :: t in ts ==> t in w
  {
    if ts == [] then 0
    else
      var last := ts[|ts| - 1];
      ChosenFullWeight(ids, A, w, ts[..|ts| - 1])
      + (if Chosen(ids, A, last) && w[last] == FullWeight(last) then w[last] else 0)
  }

  /** Every minimizing soft clause has a weight between 1 and 3 (8 to 24 in
      eighths) when no weight is negative. */
  lemma {:induction false} MinimizingSoftWeights(ids: map<Var, int>, w: map<Table, int>, ts: seq<Table>)
    requires Keyed(ids, w, ts)
    requires forall t :: t in ts ==> 0 <= w[t]
    ensures forall c :: c in MinimizingSoft(ids, w, ts) ==> 0 < c.weight <= 24
    ensures |MinimizingSoft(ids, w, ts)| <= |ts|
  {
    if ts != [] {
      var init := ts[..|ts| - 1];
      assert forall u :: u in init ==> u in ts;
      MinimizingSoftWeights(ids, w, init);
    }
  }

  /** The cost of the minimizing soft clauses is the deficiency of the chosen
      tables: their full weight less their weight. */
  lemma {:induction false} MinimizingSoftCost(ids: map<Var, int>, w: map<Table, int>, ts: seq<Table>, A: set<int>)
    requires Keyed(ids, w, ts)
    requires forall t :: t in ts ==> ids[X(t)] > 0 && w[t] <= FullWeight(t)
    ensures Cost(MinimizingSoft(ids, w, ts), A) == 8 * ChosenSeats(ids, A, ts) - ChosenWeight(ids, A, w, ts)
  {
    if ts != [] {
      var init, t := ts[..|ts| - 1], ts[|ts| - 1];
      assert forall u :: u in init ==> u in ts;
      MinimizingSoftCost(ids, w, init, A);
      var prev := MinimizingSoft(ids, w, init);
      if w[t] < FullWeight(t) {
        var c := Soft([-ids[X(t)]], FullWeight(t) - w[t]);
        SoftSnoc(prev, c, A);
        UnitClause(-ids[X(t)], A);
      } else {
        assert MinimizingSoft(ids, w, ts) == prev;
      }
    }
  }

  /** A table has its soft clause exactly when it is below its full weight
      (the ids of ts being distinct). */
  lemma {:induction false} MinimizingSoftExact(ids: map<Var, int>, w: map<Table, int>, ts: seq<Table>, t: Table)
    requires Keyed(ids, w, ts) && t in ts
    requires forall u, v :: u in ts && v in ts && ids[X(u)] == ids[X(v)] ==> u == v
    ensures Soft([-ids[X(t)]], FullWeight(t) - w[t]) in MinimizingSoft(ids, w, ts) <==> w[t] < FullWeight(t)
  {
    var init, last := ts[..|ts| - 1], ts[|ts| - 1];
    assert forall u :: u in init ==> u in ts;
    assert forall u :: u in ts ==> u in init || u == last;
    var c := Soft([-ids[X(t)]], FullWeight(t) - w[t]);
    var tail := if w[last] < FullWeight(last) then [Soft([-ids[X(last)]], FullWeight(last) - w[last])] else [];
    assert MinimizingSoft(ids, w, ts) == MinimizingSoft(ids, w, init) + tail;
    if t in init {
      MinimizingSoftExact(ids, w, init, t);
    } else {
      MinimizingSoftNotIn(ids, w, init, t);
    }
  }

  lemma {:induction false} MinimizingSoftNotIn(ids: map<Var, int>, w: map<Table, int>, ts: seq<Table>, t: Table)
    requires Keyed(ids, w, ts) && X(t) in ids
    requires forall u :: u in ts ==> ids[X(u)] != ids[X(t)]
    ensures forall c :: c in MinimizingSoft(ids, w, ts) ==> c.lits != [-ids[X(t)]]
  {
    if ts != [] {
      var init := ts[..|ts| - 1];
      assert forall u :: u in init ==> u in ts;
      MinimizingSoftNotIn(ids, w, init, t);
    }
  }

  /** The gain of the pruned maximizing encoding is the weight of the chosen
      tables, every soft weight is positive, and every table gets either a
      soft clause or a hard unit clause. */
  lemma {:induction false} PositiveSoftGain(ids: map<Var, int>, w: map<Table, int>, ts: seq<Table>, A: set<int>)
    requires Keyed(ids, w, ts)
    requires forall t :: t in ts ==> ids[X(t)] > 0 && w[t] >= 0
    ensures forall c :: c in PositiveSoft(ids, w, ts) ==> c.weight > 0
    ensures Gain(PositiveSoft(ids, w, ts), A) == ChosenWeight(ids, A, w, ts)
    ensures |PositiveSoft(ids, w, ts)| + |ZeroUnits(ids, w, ts)| == |ts|
  {
    if ts != [] {
      assert forall u :: u in ts[..|ts| - 1] ==> u in ts;
      PositiveSoftGain(ids, w, ts[..|ts| - 1], A);
      assert ts[|ts| - 1] in ts;
      PositiveSoftStep(ids, w, ts, A);
    }
  }

  lemma PositiveSoftStep(ids: map<Var, int>, w: map<Table, int>, ts: seq<Table>, A: set<int>)
    requires Keyed(ids, w, ts) && ts != [] && Keyed(ids, w, ts[..|ts| - 1])
    requires ts[|ts| - 1] in w && X(ts[|ts| - 1]) in ids && ids[X(ts[|ts| - 1])] > 0 && w[ts[|ts| - 1]] >= 0
    requires forall c :: c in PositiveSoft(ids, w, ts[..|ts| - 1]) ==> c.weight > 0
    requires Gain(PositiveSoft(ids, w, ts[..|ts| - 1]), A) == ChosenWeight(ids, A, w, ts[..|ts| - 1])
    requires |PositiveSoft(ids, w, ts[..|ts| - 1])| + |ZeroUnits(ids, w, ts[..|ts| - 1])| == |ts| - 1
    ensures forall c :: c in PositiveSoft(ids, w, ts) ==> c.weight > 0
    ensures Gain(PositiveSoft(ids, w, ts), A) == ChosenWeight(ids, A, w, ts)
    ensures |PositiveSoft(ids, w, ts)| + |ZeroUnits(ids, w, ts)| == |ts|
  {
    var init, t := ts[..|ts| - 1], ts[|ts| - 1];
    var prev := PositiveSoft(ids, w, init);
    if w[t] > 0 {
      assert PositiveSoft(ids, w, ts) == prev + [Soft([ids[X(t)]], w[t])];
      SoftSnoc(prev, Soft([ids[X(t)]], w[t]), A);
      UnitClause(ids[X(t)], A);
    } else {
      assert PositiveSoft(ids, w, ts) == prev;
    }
  }

  /** The hard unit clauses of the pruned maximizing encoding hold iff no
      chosen table has weight 0. */
  lemma {:induction false} ZeroUnitsHold(ids: map<Var, int>, w: map<Table, int>, ts: seq<Table>, A: set<int>)
    requires Keyed(ids, w, ts)
    requires forall t :: t in ts ==> ids[X(t)] > 0
    ensures AllSat(ZeroUnits(ids, w, ts), A) <==> forall t :: t in ts && Chosen(ids, A, t) ==> w[t] > 0
  {
    if ts != [] {
      var init, t := ts[..|ts| - 1], ts[|ts| - 1];
      assert forall u :: u in init ==> u in ts;
      assert forall u :: u in ts ==> u in init || u == t;
      ZeroUnitsHold(ids, w, init, A);
      UnitClause(-ids[X(t)], A);
      var tail := if w[t] > 0 then [] else [[-ids[X(t)]]];
      AllSatConcat(ZeroUnits(ids, w, init), tail, A);
      assert AllSat(tail, A) <==> (Chosen(ids, A, t) ==> w[t] > 0) by {
        if tail != [] {
          assert AllSat(tail, A) <==> ClauseSat(tail[0], A);
        }
      }
    }
  }

  /** The gain of the full-weight encoding is the weight of the chosen tables
      that are at their full weight. */
  lemma {:induction false} FullSoftGain(ids: map<Var, int>, w: map<Table, int>, ts: seq<Table>, A: set<int>)
    requires Keyed(ids, w, ts)
    requires forall t :: t in ts ==> ids[X(t)] > 0
    ensures Gain(FullSoft(ids, w, ts), A) == ChosenFullWeight(ids, A, w, ts)
  {
    if ts != [] {
      var init, t := ts[..|ts| - 1], ts[|ts| - 1];
      assert forall u :: u in init ==> u in ts;
      FullSoftGain(ids, w, init, A);
      var prev := FullSoft(ids, w, init);
      if w[t] == FullWeight(t) {
        SoftSnoc(prev, Soft([ids[X(t)]], w[t]), A);
        UnitClause(ids[X(t)], A);
      } else {
        assert FullSoft(ids, w, ts) == prev;
      }
    }
  }

  lemma {:induction false} FullSoftWeights(ids: map<Var, int>, w: map<Table, int>, ts: seq<Table>)
    requires Keyed(ids, w, ts)
    ensures forall c :: c in FullSoft(ids, w, ts) ==> c.weight == 16 || c.weight == 24
  {
    if ts != [] {
      var init := ts[..|ts| - 1];
      assert forall u :: u in init ==> u in ts;
      FullSoftWeights(ids, w, init);
    }
  }

  /** The pruning clauses hold iff every chosen table is at its full weight;
      there is one per table that is not. */
  lemma {:induction false} PruneUnitsHold(ids: map<Var, int>, w: map<Table, int>, ts: seq<Table>, A: set<int>)
    requires Keyed(ids, w, ts)
    requires forall t :: t in ts ==> ids[X(t)] > 0
    ensures AllSat(PruneUnits(ids, w, ts), A) <==>
      forall t :: t in ts && Chosen(ids, A, t) ==> w[t] == FullWeight(t)
    ensures |PruneUnits(ids, w, ts)| + |FullSoft(ids, w, ts)| == |ts|
  {
    if ts != [] {
      var init, t := ts[..|ts| - 1], ts[|ts| - 1];
      assert forall u :: u in init ==> u in ts;
      assert forall u :: u in ts ==> u in init || u == t;
      PruneUnitsHold(ids, w, init, A);
      UnitClause(-ids[X(t)], A);
      var tail := if w[t] != FullWeight(t) then [[-ids[X(t)]]] else [];
      AllSatConcat(PruneUnits(ids, w, init), tail, A);
      assert AllSat(tail, A) <==> (Chosen(ids, A, t) ==> w[t] == FullWeight(t)) by {
        if tail != [] {
          assert AllSat(tail, A) <==> ClauseSat(tail[0], A);
        }
      }
    }
  }

  /** Under the pruning clauses the selected weight is the full weight of the
      chosen tables: 2 per pair and 3 per triple. */
  lemma {:induction false} PrunedWeightIsFull(ids: map<Var, int>, A: set<int>, w: map<Table, int>, ts: seq<Table>)
    requires forall t :: t in ts ==> t in w
    requires forall t :: t in ts && Chosen(ids, A, t) ==> w[t] == FullWeight(t)
    ensures ChosenWeight(ids, A, w, ts) == 8 * ChosenSeats(ids, A, ts)
    ensures ChosenFullWeight(ids, A, w, ts) == ChosenWeight(ids, A, w, ts)
  {
    if ts != [] {
      var init := ts[..|ts| - 1];
      assert forall u :: u in init ==> u in ts;
      PrunedWeightIsFull(ids, A, w, init);
    }
  }

  // ---------------------------------------------------------------------
  // Objective terms of the CP-SAT models

  /** Minimizing: (2 - w) * x or (3 - w) * x for every table below its full
      weight. */
  function MinimizingTerms(ids: map<Var, int>, w: map<Table, int>, ts: seq<Table>): seq<Term>
    requires Keyed(ids, w, ts)
  {
    if ts == [] then []
    else
      var t := ts[|ts| - 1];
      MinimizingTerms(ids, w, ts[..|ts| - 1])
      + (if w[t] < FullWeight(t) then [Term(FullWeight(t) - w[t], ids[X(t)])] else [])
  }

  /** Maximizing: w * x for every table of positive weight. */
  function PositiveTerms(ids: map<Var, int>, w: map<Table, int>, ts: seq<Table>): seq<Term>
    requires Keyed(ids, w, ts)
  {
    if ts == [] then []
    else
      var t := ts[|ts| - 1];
      PositiveTerms(ids, w, ts[..|ts| - 1]) + (if w[t] > 0 then [Term(w[t], ids[X(t)])] else [])
  }

  /** The minimized CP-SAT sum takes the cost of the minimizing soft clauses
      as its value. */
  lemma {:induction false} MinimizingTermsMatch(ids: map<Var, int>, w: map<Table, int>, ts: seq<Table>, A: set<int>)
    requires Keyed(ids, w, ts)
    requires forall t :: t in ts ==> ids[X(t)] > 0
    ensures Value(MinimizingTerms(ids, w, ts), A) == Cost(MinimizingSoft(ids, w, ts), A)
    ensures |MinimizingTerms(ids, w, ts)| == |MinimizingSoft(ids, w, ts)|
  {
    if ts != [] {
      PositiveIdsInit(ids, w, ts);
      MinimizingTermsMatch(ids, w, ts[..|ts| - 1], A);
      assert ts[|ts| - 1] in ts;
      MinimizingTermsStep(ids, w, ts, A);
    }
  }

  /** The tables before the last of ts keep the facts the lemmas ask of ts. */
  lemma PositiveIdsInit(ids: map<Var, int>, w: map<Table, int>, ts: seq<Table>)
    requires Keyed(ids, w, ts) && ts != []
    requires forall t :: t in ts ==> ids[X(t)] > 0
    ensures Keyed(ids, w, ts[..|ts| - 1])
    ensures forall t :: t in ts[..|ts| - 1] ==> ids[X(t)] > 0
  {
    assert forall u :: u in ts[..|ts| - 1] ==> u in ts;
  }

  lemma MinimizingTermsStep(ids: map<Var, int>, w: map<Table, int>, ts: seq<Table>, A: set<int>)
    requires Keyed(ids, w, ts) && ts != [] && Keyed(ids, w, ts[..|ts| - 1])
    requires X(ts[|ts| - 1]) in ids && ids[X(ts[|ts| - 1])] > 0
    requires Value(MinimizingTerms(ids, w, ts[..|ts| - 1]), A) == Cost(MinimizingSoft(ids, w, ts[..|ts| - 1]), A)
    requires |MinimizingTerms(ids, w, ts[..|ts| - 1])| == |MinimizingSoft(ids, w, ts[..|ts| - 1])|
    ensures Value(MinimizingTerms(ids, w, ts), A) == Cost(MinimizingSoft(ids, w, ts), A)
    ensures |MinimizingTerms(ids, w, ts)| == |MinimizingSoft(ids, w, ts)|
  {
    var init, t := ts[..|ts| - 1], ts[|ts| - 1];
    var x := ids[X(t)];
    var terms, soft := MinimizingTerms(ids, w, init), MinimizingSoft(ids, w, init);
    if w[t] < FullWeight(t) {
      assert MinimizingTerms(ids, w, ts) == terms + [Term(FullWeight(t) - w[t], x)];
      assert MinimizingSoft(ids, w, ts) == soft + [Soft([-x], FullWeight(t) - w[t])];
      NegatedTermStep(terms, soft, FullWeight(t) - w[t], x, A);
    } else {
      assert MinimizingTerms(ids, w, ts) == terms;
      assert MinimizingSoft(ids, w, ts) == soft;
    }
  }

  /** A term c * x adds to the value what the soft clause [-x] of weight c
      adds to the cost. */
  lemma NegatedTermStep(terms: seq<Term>, soft: seq<Soft>, c: int, x: int, A: set<int>)
    requires Value(terms, A) == Cost(soft, A) && |terms| == |soft| && x > 0
    ensures Value(terms + [Term(c, x)], A) == Cost(soft + [Soft([-x], c)], A)
    ensures |terms + [Term(c, x)]| == |soft + [Soft([-x], c)]|
  {
    ValueSnoc(terms, Term(c, x), A);
    SoftSnoc(soft, Soft([-x], c), A);
    UnitClause(-x, A);
  }

  /** The maximized CP-SAT sum takes the gain of the pruned maximizing soft
      clauses as its value. */
  lemma {:induction false} PositiveTermsMatch(ids: map<Var, int>, w: map<Table, int>, ts: seq<Table>, A: set<int>)
    requires Keyed(ids, w, ts)
    requires forall t :: t in ts ==> ids[X(t)] > 0
    ensures Value(PositiveTerms(ids, w, ts), A) == Gain(PositiveSoft(ids, w, ts), A)
    ensures |PositiveTerms(ids, w, ts)| == |PositiveSoft(ids, w, ts)|
  {
    if ts != [] {
      var init, t := ts[..|ts| - 1], ts[|ts| - 1];
      assert forall u :: u in init ==> u in ts;
      PositiveTermsMatch(ids, w, init, A);
      var x := ids[X(t)];
      if w[t] > 0 {
        ValueSnoc(PositiveTerms(ids, w, init), Term(w[t], x), A);
        SoftSnoc(PositiveSoft(ids, w, init), Soft([x], w[t]), A);
        UnitClause(x, A);
      } else {
        assert PositiveTerms(ids, w, ts) == PositiveTerms(ids, w, init);
        assert PositiveSoft(ids, w, ts) == PositiveSoft(ids, w, init);
      }
    }
  }

  // ---------------------------------------------------------------------
  // The totals reported after solving

  /** In the minimizing encoding, when every student sits at exactly one
      chosen table and no table exceeds its full weight, the class size
      minus the cost is the weight of the chosen tables (in eighths:
      8N - cost). */
  lemma MinimizingDuality(ids: map<Var, int>, w: map<Table, int>, n: nat, A: set<int>)
    requires IdsFor(ids, n) && Seated(ids, A, n)
    requires forall t :: WellFormed(t, n) ==> t in w && w[t] <= FullWeight(t)
    ensures Keyed(ids, w, Candidates(n))
    ensures 8 * n - Cost(MinimizingSoft(ids, w, Candidates(n)), A) == ChosenWeight(ids, A, w, Candidates(n))
  {
    CandidatesFacts(n);
    CandidatesHaveIds(ids, n);
    forall t | t in Candidates(n) ensures ids[X(t)] > 0 {
      assert ValidVar(X(t), n);
    }
    MinimizingSoftCost(ids, w, Candidates(n), A);
    SeatsFill(ids, A, n);
  }

  /** In the full-weight maximizing encoding, the sum of the soft weights
      minus the cost is the weight of the chosen fully satisfied tables. */
  lemma FullSoftTotal(ids: map<Var, int>, w: map<Table, int>, ts: seq<Table>, A: set<int>)
    requires Keyed(ids, w, ts)
    requires forall t :: t in ts ==> ids[X(t)] > 0
    ensures TotalWeight(FullSoft(ids, w, ts)) - Cost(FullSoft(ids, w, ts), A) == ChosenFullWeight(ids, A, w, ts)
  {
    GainPlusCost(FullSoft(ids, w, ts), A);
    FullSoftGain(ids, w, ts, A);
  }
}
