/** The three 0-indexed scripts with a fixed model: rc2_solver.py (RC2,
    weighted clauses), mip_solver.py (SCIP) and cp-sat_solver.py (CP-SAT).
    Each is a method returning what its module-level loops leave behind:
    the ids (the counter of rc2_solver.py; the MIP and CP-SAT variables are
    named by their creation index, counted from 1), the hard constraints,
    and the soft clauses or the objective terms. The linear constraints of
    the MIP and CP-SAT models over 0/1 variables are written as the clauses
    they are equivalent to (see LinearValidity). */
module ZeroScripts {
  import opened Tables
  import opened Cnf
  import opened Weights
  import opened Membership
  import opened Seating
  import opened Encoding
  import opened Decoding
  import opened Builders
  import opened Grouped
  import opened ZeroIndexed

  // ---------------------------------------------------------------------
  // The orders in which the scripts visit the tables

  /** combinations(students, 2) then combinations(students, 3): the pairs
      row by row, then the triples, of students 0..n-1. */
  function ZeroCandidates(n: nat): seq<Table>
  {
    PairsUpTo(0, n, n) + TriplesUpTo(0, n, n)
  }

  lemma ZeroCandidatesFacts(n: nat)
    ensures forall t :: t in ZeroCandidates(n) <==> Candidate(t, n)
    ensures Distinct(ZeroCandidates(n))
  {
    var pairs, triples := PairsUpTo(0, n, n), TriplesUpTo(0, n, n);
    PairsUpToFacts(0, n, n);
    TriplesUpToFacts(0, n, n);
    PairsAndTriplesDisjoint(pairs, triples);
    DistinctConcat(pairs, triples);
  }

  /** The validity loop of rc2_solver.py: for each j > i the pair (i, j),
      then the triples (i, j, k) with k > j. */
  function NestedRow(i: int, jlo: int, jhi: int, khi: int): seq<Table>
    decreases jhi - jlo
  {
    if jhi <= jlo then [] else NestedRow(i, jlo, jhi - 1, khi) + [Pair(i, jhi - 1)] + RowC(i, jhi - 1, jhi, khi)
  }

  /** The same loop over the students i of 0..m-1. */
  function NestedTables(m: int, n: int): seq<Table>
    decreases m
  {
    if m <= 0 then [] else NestedTables(m - 1, n) + NestedRow(m - 1, m, n, n)
  }

  lemma {:induction false} NestedRowFacts(i: int, jlo: int, jhi: int, khi: int)
    ensures forall t :: t in NestedRow(i, jlo, jhi, khi) <==>
      t.a == i && jlo <= t.b < jhi && (t.Triple? ==> t.b < t.c < khi)
    decreases jhi - jlo
  {
    if jhi > jlo {
      NestedRowFacts(i, jlo, jhi - 1, khi);
      RowCFacts(i, jhi - 1, jhi, khi);
    }
  }

  /** The nested loop visits every candidate whose least member is below m,
      and nothing else. */
  lemma {:induction false} NestedTablesFacts(m: int, n: int)
    requires m <= n
    ensures forall t :: t in NestedTables(m, n) <==> Candidate(t, n) && t.a < m
    decreases m
  {
    if m > 0 {
      NestedTablesFacts(m - 1, n);
      NestedRowFacts(m - 1, m, n, n);
    }
  }

  /** The report loops: for each i, its pairs (i, j), then its triples
      (i, j, k). */
  function PrintOrder(m: int, n: int): seq<Table>
    decreases m
  {
    if m <= 0 then [] else PrintOrder(m - 1, n) + PairsAbove(m - 1, m, n) + LedBlock(m - 1, m, n, n)
  }

  lemma {:induction false} PrintOrderMembers(m: int, n: int)
    requires m <= n
    ensures forall t :: t in PrintOrder(m, n) <==> Candidate(t, n) && t.a < m
    decreases m
  {
    if m > 0 {
      var prev, pairs, triples := PrintOrder(m - 1, n), PairsAbove(m - 1, m, n), LedBlock(m - 1, m, n, n);
      PrintOrderMembers(m - 1, n);
      PairsAboveFacts(m - 1, m, n);
      LedBlockFacts(m - 1, m, n, n);
      assert PrintOrder(m, n) == prev + pairs + triples;
      forall t ensures t in PrintOrder(m, n) <==> Candidate(t, n) && t.a < m {
        if t.a < m - 1 {
          assert t !in pairs && t !in triples;
        } else if t.Pair? {
          assert t !in prev && t !in triples;
        } else {
          assert t !in prev && t !in pairs;
        }
      }
    }
  }

  lemma {:induction false} PrintOrderBelow(m: int, n: int)
    ensures forall t :: t in PrintOrder(m, n) ==> t.a < m
    decreases m
  {
    if m > 0 {
      PrintOrderBelow(m - 1, n);
      PairsAboveFacts(m - 1, m, n);
      LedBlockFacts(m - 1, m, n, n);
    }
  }

  lemma {:induction false} PrintOrderDistinct(m: int, n: int)
    ensures Distinct(PrintOrder(m, n))
    decreases m
  {
    if m > 0 {
      var prev, pairs, triples := PrintOrder(m - 1, n), PairsAbove(m - 1, m, n), LedBlock(m - 1, m, n, n);
      PrintOrderDistinct(m - 1, n);
      PrintOrderBelow(m - 1, n);
      PairsAboveFacts(m - 1, m, n);
      LedBlockFacts(m - 1, m, n, n);
      DistinctConcat(pairs, triples);
      assert forall t: Table :: t in pairs + triples ==> t.a == m - 1;
      DistinctConcat(prev, pairs + triples);
      assert PrintOrder(m, n) == prev + (pairs + triples);
    }
  }

  /** The report loops visit every candidate once. */
  lemma PrintOrderFacts(m: int, n: int)
    requires m <= n
    ensures forall t :: t in PrintOrder(m, n) <==> Candidate(t, n) && t.a < m
    ensures Distinct(PrintOrder(m, n))
  {
    PrintOrderMembers(m, n);
    PrintOrderDistinct(m, n);
  }

  // ---------------------------------------------------------------------
  // Weights by set membership

  /** The weight every script gives a candidate, in eighths:
      2 * [j in P(i)] * [i in P(j)] for a pair and
      3 * |{j,k} & P(i)| * |{i,k} & P(j)| * |{i,j} & P(k)| / 8 for a triple. */
  function ZeroWeights(prefs: Prefs, n: nat): (r: map<Table, int>)
    ensures forall t :: t in r <==> Candidate(t, n)
    ensures forall t :: t in r ==> r[t] == SetWeight(prefs, t) && 0 <= r[t] <= FullWeight(t)
  {
    ZeroCandidatesFacts(n);
    var r := map t | t in ZeroCandidates(n) :: SetWeight(prefs, t);
    assert forall t :: t in r ==> 0 <= r[t] <= FullWeight(t) by {
      forall t | t in r ensures 0 <= r[t] <= FullWeight(t) {
        SetWeightAtMostFull(prefs, t, 0, n - 1);
      }
    }
    r
  }

  /** For any lists at all, a pair weighs 0 or 2 and a triple 3p/8 with p
      in 0..8. */
  lemma ZeroWeightValues(prefs: Prefs, n: nat, t: Table)
    requires Candidate(t, n)
    ensures t in ZeroWeights(prefs, n)
    ensures t.Pair? ==> ZeroWeights(prefs, n)[t] in {0, 16}
    ensures t.Triple? ==> ZeroWeights(prefs, n)[t] % 3 == 0 && 0 <= ZeroWeights(prefs, n)[t] <= 24
  {
    match t
    case Pair(i, j) => SetPairWeightRange(prefs, i, j);
    case Triple(i, j, k) => SetTripleWeightRange(prefs, i, j, k);
  }

  /** The candidates have ids and weights. */
  lemma ZeroKeyed(ids: map<Var, int>, prefs: Prefs, n: nat)
    requires ZeroNumbered(ids, n)
    ensures Keyed(ids, ZeroWeights(prefs, n), ZeroCandidates(n))
    ensures forall t :: t in ZeroCandidates(n) ==> ids[X(t)] > 0 && ZeroWeights(prefs, n)[t] >= 0
  {
    ZeroCandidatesFacts(n);
  }

  // ---------------------------------------------------------------------
  // The hard part

  /** The exactly-one constraints of students 0..n-1, list after list. */
  method ListsLoop(ids: map<Var, int>, n: nat, enc: OneOf) returns (cs: seq<Constraint>)
    requires ZeroNumbered(ids, n)
    ensures cs == ZeroAssignment(ids, n, enc, false)
  {
    ghost var lists := ZeroLists(ids, n, false);
    cs := [];
    var i := 0;
    while i < n
      invariant 0 <= i <= n
      invariant cs == EncodeAll(enc, lists[..i])
    {
      var clauses := ListIds(ids, i, n, false);
      ListsStep(ids, n, enc, i);
      cs := cs + EncodeOne(enc, clauses);
      i := i + 1;
    }
    assert lists[..n] == lists;
  }

  lemma ListsStep(ids: map<Var, int>, n: nat, enc: OneOf, i: int)
    requires ZeroNumbered(ids, n) && 0 <= i < n
    ensures var lists := ZeroLists(ids, n, false);
      EncodeAll(enc, lists[..i + 1]) == EncodeAll(enc, lists[..i]) + EncodeOne(enc, ListIds(ids, i, n, false))
  {
    var lists := ZeroLists(ids, n, false);
    var next := lists[..i + 1];
    assert next[..i] == lists[..i];
    assert next[i] == ListIds(ids, i, n, false);
  }

  /** The membership, validity and seat-count loops of a 0-indexed script:
      the lists as written under enc, the validity clauses of every
      candidate in the order of order, and sum(y) == bound. The result
      holds iff every list has exactly one chosen table, every chosen table
      fits the seat flags and bound flags are set. */
  method ZeroHardPart(ids: map<Var, int>, n: nat, enc: OneOf, order: seq<Table>, bound: int)
    returns (hard: seq<Constraint>)
    requires ZeroNumbered(ids, n) && forall t :: t in order <==> Candidate(t, n)
    ensures hard == ZeroHard(ids, n, enc, false, order, bound)
    ensures forall A :: AllHold(hard, A) <==>
      ListsHold(ids, A, n, false) && TablesFit0(ids, A, n) &&
      |set s | 0 <= s < n && Flag(ids, A, s)| == bound
  {
    OrderNumbered(ids, n, order);
    var lists := ListsLoop(ids, n, enc);
    assert order + [] == order;
    var validity := ValidityLoop(ids, order, []);
    var flags := ZeroFlagIds(ids, n);
    hard := lists + Clauses(validity) + [Exactly(flags, bound)];
    forall A ensures AllHold(hard, A) <==>
      ListsHold(ids, A, n, false) && TablesFit0(ids, A, n) &&
      |set s | 0 <= s < n && Flag(ids, A, s)| == bound
    {
      ZeroHardSemantics(ids, n, enc, false, order, bound, A);
    }
  }

  // ---------------------------------------------------------------------
  // rc2_solver.py

  /** The WCNF that rc2_solver.py hands to RC2: the grouped counter, the
      lists as written with pairwise exclusions, the validity clauses in the
      nested order, sum(y) == (N // 7) * 4, then for every pair and every
      triple a hard [-x] when its weight is 0 and a soft [x] of its weight
      otherwise. A satisfying assignment chooses only tables of positive
      weight, and the satisfied soft weight is the weight of the chosen
      tables. */
  method Rc2Script(n: nat, prefs: Prefs)
    returns (ids: map<Var, int>, pairs: seq<Table>, triples: seq<Table>, hard: seq<Constraint>, soft: seq<Soft>)
    ensures ids == Numbering(GroupedOrder(0, n)) && ZeroIds(ids, n)
    ensures pairs == PairsUpTo(0, n, n) && triples == TriplesUpTo(0, n, n)
    ensures Keyed(ids, ZeroWeights(prefs, n), ZeroCandidates(n))
    ensures forall t :: t in NestedTables(n, n) <==> Candidate(t, n)
    ensures hard == ZeroHard(ids, n, PairwiseClauses, false, NestedTables(n, n), GroupedSeatBound(n))
      + Clauses(ZeroUnits(ids, ZeroWeights(prefs, n), ZeroCandidates(n)))
    ensures soft == PositiveSoft(ids, ZeroWeights(prefs, n), ZeroCandidates(n))
    ensures forall A :: AllHold(hard, A) <==>
      ListsHold(ids, A, n, false) && TablesFit0(ids, A, n) &&
      |set s | 0 <= s < n && Flag(ids, A, s)| == GroupedSeatBound(n) &&
      forall t :: Candidate(t, n) && Chosen(ids, A, t) ==> ZeroWeights(prefs, n)[t] > 0
    ensures forall A :: Gain(soft, A) == ChosenWeight(ids, A, ZeroWeights(prefs, n), ZeroCandidates(n))
  {
    var count;
    ids, pairs, triples, count := NumberGrouped(0, n);
    GroupedZeroIds(n);
    var order := NestedTables(n, n);
    NestedTablesFacts(n, n);
    var numTables2 := n / 7;
    numTables2 := numTables2 * 4;
    var base := ZeroHardPart(ids, n, PairwiseClauses, order, numTables2);
    var w := ZeroWeights(prefs, n);
    ZeroKeyed(ids, prefs, n);
    var units;
    soft, units := PositiveLoop(ids, w, pairs + triples);
    hard := base + Clauses(units);
    forall A ensures AllHold(hard, A) <==>
      ListsHold(ids, A, n, false) && TablesFit0(ids, A, n) &&
      |set s | 0 <= s < n && Flag(ids, A, s)| == GroupedSeatBound(n) &&
      forall t :: Candidate(t, n) && Chosen(ids, A, t) ==> w[t] > 0
    {
      AllHoldConcat(base, Clauses(units), A);
      AllHoldClauses(units, A);
      ZeroUnitsHold(ids, w, ZeroCandidates(n), A);
      ZeroCandidatesFacts(n);
    }
    forall A ensures Gain(soft, A) == ChosenWeight(ids, A, w, ZeroCandidates(n)) {
      PositiveSoftGain(ids, w, ZeroCandidates(n), A);
    }
  }

  // ---------------------------------------------------------------------
  // Validity as linear constraints over 0/1 variables

  /** A validity constraint of the MIP or CP-SAT model, over the ids of
      0/1 variables. */
  datatype Rule =
    | AtLeast(y: int, x: int)            // y >= x
    | AtMostNot(y: int, x: int)          // y <= 1 - x
    | EnforcedEq(y: int, v: int, x: int) // y == v, enforced only if x

  /** How a model states validity: mip_solver.py with inequalities,
      cp-sat_solver.py with enforced equalities. */
  datatype Style = Inequalities | Enforced

  /** The value of variable x under the assignment A. */
  function Bit(x: int, A: set<int>): int
  {
    if x in A then 1 else 0
  }

  predicate RuleHolds(r: Rule, A: set<int>)
  {
    match r
    case AtLeast(y, x) => Bit(y, A) >= Bit(x, A)
    case AtMostNot(y, x) => Bit(y, A) <= 1 - Bit(x, A)
    case EnforcedEq(y, v, x) => x in A ==> Bit(y, A) == v
  }

  predicate RulesHold(rs: seq<Rule>, A: set<int>)
  {
    forall q :: 0 <= q < |rs| ==> RuleHolds(rs[q], A)
  }

  /** The constraints of one table: one per member, y >= x or y == 1 for a
      pair, y <= 1 - x or y == 0 for a triple. */
  function TableRules(style: Style, ids: map<Var, int>, t: Table): (r: seq<Rule>)
    requires X(t) in ids && forall s :: s in Members(t) ==> Y(s) in ids
    ensures |r| == Size(t)
  {
    var x := ids[X(t)];
    match t
    case Pair(a, b) =>
      if style == Inequalities then [AtLeast(ids[Y(a)], x), AtLeast(ids[Y(b)], x)]
      else [EnforcedEq(ids[Y(a)], 1, x), EnforcedEq(ids[Y(b)], 1, x)]
    case Triple(a, b, c) =>
      if style == Inequalities then [AtMostNot(ids[Y(a)], x), AtMostNot(ids[Y(b)], x), AtMostNot(ids[Y(c)], x)]
      else [EnforcedEq(ids[Y(a)], 0, x), EnforcedEq(ids[Y(b)], 0, x), EnforcedEq(ids[Y(c)], 0, x)]
  }

  /** The constraints of the tables ts, table after table. */
  function ValidityRules(style: Style, ids: map<Var, int>, ts: seq<Table>): seq<Rule>
    requires forall t :: t in ts ==> X(t) in ids && forall s :: s in Members(t) ==> Y(s) in ids
  {
    if ts == [] then [] else ValidityRules(style, ids, ts[..|ts| - 1]) + TableRules(style, ids, ts[|ts| - 1])
  }

  lemma RulesHoldConcat(u: seq<Rule>, w: seq<Rule>, A: set<int>)
    ensures RulesHold(u + w, A) <==> RulesHold(u, A) && RulesHold(w, A)
  {
    if RulesHold(u, A) && RulesHold(w, A) {
      forall q | 0 <= q < |u + w| ensures RuleHolds((u + w)[q], A) {
        if q >= |u| {
          assert (u + w)[q] == w[q - |u|];
        }
      }
    }
    if RulesHold(u + w, A) {
      forall q | 0 <= q < |w| ensures RuleHolds(w[q], A) {
        assert (u + w)[|u| + q] == w[q];
      }
      forall q | 0 <= q < |u| ensures RuleHolds(u[q], A) {
        assert (u + w)[q] == u[q];
      }
    }
  }

  /** Over 0/1 variables, either style of a table's constraints holds iff
      the table is not chosen or its members' seat flags fit its size,
      which is what its validity clauses say. */
  lemma TableRulesSemantics(style: Style, ids: map<Var, int>, t: Table, A: set<int>)
    requires X(t) in ids && forall s :: s in Members(t) ==> Y(s) in ids
    ensures RulesHold(TableRules(style, ids, t), A) <==> (Chosen(ids, A, t) ==> Fits(ids, A, t))
  {
    var rs := TableRules(style, ids, t);
    match t
    case Pair(a, b) =>
      assert RulesHold(rs, A) <==> RuleHolds(rs[0], A) && RuleHolds(rs[1], A);
    case Triple(a, b, c) =>
      assert RulesHold(rs, A) <==> RuleHolds(rs[0], A) && RuleHolds(rs[1], A) && RuleHolds(rs[2], A);
  }

  lemma {:induction false} ValidityRulesSemantics(style: Style, ids: map<Var, int>, ts: seq<Table>, A: set<int>)
    requires forall t :: t in ts ==> X(t) in ids && forall s :: s in Members(t) ==> Y(s) in ids
    ensures RulesHold(ValidityRules(style, ids, ts), A) <==>
      forall t :: t in ts && Chosen(ids, A, t) ==> Fits(ids, A, t)
  {
    if ts != [] {
      var init, t := ts[..|ts| - 1], ts[|ts| - 1];
      assert forall u :: u in init ==> u in ts;
      assert forall u :: u in ts <==> u in init || u == t;
      ValidityRulesSemantics(style, ids, init, A);
      RulesHoldConcat(ValidityRules(style, ids, init), TableRules(style, ids, t), A);
      TableRulesSemantics(style, ids, t, A);
    }
  }

  /** The validity loops of mip_solver.py and cp-sat_solver.py: the pairs,
      then the triples, each adding one constraint per member. */
  method ValidityRulesLoop(style: Style, ids: map<Var, int>, ts: seq<Table>) returns (rules: seq<Rule>)
    requires forall t :: t in ts ==> X(t) in ids && forall s :: s in Members(t) ==> Y(s) in ids
    ensures rules == ValidityRules(style, ids, ts)
  {
    rules := [];
    var p := 0;
    while p < |ts|
      invariant 0 <= p <= |ts|
      invariant rules == ValidityRules(style, ids, ts[..p])
    {
      assert ts[..p + 1][..p] == ts[..p];
      assert ts[p] in ts;
      rules := rules + TableRules(style, ids, ts[p]);
      p := p + 1;
    }
    assert ts[..|ts|] == ts;
  }

  // ---------------------------------------------------------------------
  // The objective of mip_solver.py and cp-sat_solver.py

  /** A term w * x for every table of ts, weight 0 included, in eighths. */
  function WeightTerms(ids: map<Var, int>, prefs: Prefs, ts: seq<Table>): seq<Term>
    requires forall t :: t in ts ==> X(t) in ids
  {
    if ts == [] then []
    else
      var t := ts[|ts| - 1];
      WeightTerms(ids, prefs, ts[..|ts| - 1]) + [Term(SetWeight(prefs, t), ids[X(t)])]
  }

  /** The objective has one term per table, and its value at any
      assignment is the weight of the chosen tables. */
  lemma {:induction false} WeightTermsValue(ids: map<Var, int>, prefs: Prefs, w: map<Table, int>, ts: seq<Table>, A: set<int>)
    requires forall t :: t in ts ==> X(t) in ids && t in w && w[t] == SetWeight(prefs, t)
    ensures |WeightTerms(ids, prefs, ts)| == |ts|
    ensures Value(WeightTerms(ids, prefs, ts), A) == ChosenWeight(ids, A, w, ts)
  {
    if ts != [] {
      var init, t := ts[..|ts| - 1], ts[|ts| - 1];
      assert forall u :: u in init ==> u in ts;
      assert t in ts;
      WeightTermsValue(ids, prefs, w, init, A);
      ValueSnoc(WeightTerms(ids, prefs, init), Term(SetWeight(prefs, t), ids[X(t)]), A);
    }
  }

  /** The objective loops: one coefficient per pair, then per triple. */
  method WeightTermsLoop(ids: map<Var, int>, prefs: Prefs, ts: seq<Table>) returns (terms: seq<Term>)
    requires forall t :: t in ts ==> X(t) in ids
    ensures terms == WeightTerms(ids, prefs, ts)
  {
    terms := [];
    var p := 0;
    while p < |ts|
      invariant 0 <= p <= |ts|
      invariant terms == WeightTerms(ids, prefs, ts[..p])
    {
      var seen := ts[..p + 1];
      assert seen[..p] == ts[..p] && seen[p] == ts[p];
      assert ts[p] in ts;
      var weight := SetWeight(prefs, ts[p]);
      terms := terms + [Term(weight, ids[X(ts[p])])];
      assert terms == WeightTerms(ids, prefs, seen);
      p := p + 1;
    }
    assert ts[..|ts|] == ts;
  }

  // ---------------------------------------------------------------------
  // mip_solver.py and cp-sat_solver.py

  /** The seat count: int(N * 4 / 7) in mip_solver.py, (N // 7) * 4 in
      cp-sat_solver.py. */
  function LinearBound(style: Style, n: nat): int
  {
    if style == Inequalities then SeatBound(n) else GroupedSeatBound(n)
  }

  /** sum(list) == 1 per student, then sum(y) == bound. */
  function LinearHard(ids: map<Var, int>, n: nat, complete: bool, bound: int): seq<Constraint>
    requires ZeroNumbered(ids, n)
  {
    ZeroAssignment(ids, n, LinearSum, complete) + [Exactly(ZeroFlagIds(ids, n), bound)]
  }

  /** The validity constraints of the pairs, then the triples. */
  function LinearRules(style: Style, ids: map<Var, int>, n: nat): seq<Rule>
    requires ZeroNumbered(ids, n)
  {
    ZeroCandidatesFacts(n);
    OrderNumbered(ids, n, ZeroCandidates(n));
    ValidityRules(style, ids, ZeroCandidates(n))
  }

  /** A term for every pair, then every triple. */
  function LinearObjective(ids: map<Var, int>, prefs: Prefs, n: nat): seq<Term>
    requires ZeroNumbered(ids, n)
  {
    ZeroCandidatesFacts(n);
    WeightTerms(ids, prefs, ZeroCandidates(n))
  }

  /** An assignment meets the constraints and the validity rules iff every
      list has exactly one chosen table, every chosen table fits the seat
      flags and bound flags are set. */
  lemma LinearHardSemantics(style: Style, ids: map<Var, int>, n: nat, complete: bool, bound: int, A: set<int>)
    requires ZeroNumbered(ids, n)
    ensures AllHold(LinearHard(ids, n, complete, bound), A) && RulesHold(LinearRules(style, ids, n), A) <==>
      ListsHold(ids, A, n, complete) && TablesFit0(ids, A, n) && |set s | 0 <= s < n && Flag(ids, A, s)| == bound
  {
    var ts := ZeroCandidates(n);
    ZeroCandidatesFacts(n);
    OrderNumbered(ids, n, ts);
    var lists, count := ZeroAssignment(ids, n, LinearSum, complete), Exactly(ZeroFlagIds(ids, n), bound);
    AllHoldConcat(lists, [count], A);
    assert AllHold([count], A) <==> Holds(count, A) by {
      assert [count][0] == count;
    }
    ZeroAssignmentSemantics(ids, n, LinearSum, complete, A);
    ZeroFlagCount(ids, n, A);
    ValidityRulesSemantics(style, ids, ts, A);
  }

  /** With the corrected lists, the linear model holds iff every student
      sits at exactly one chosen table, the chosen tables fit the flags and
      bound flags are set. */
  lemma CompleteLinearSemantics(style: Style, ids: map<Var, int>, n: nat, bound: int, A: set<int>)
    requires ZeroNumbered(ids, n)
    ensures AllHold(LinearHard(ids, n, true, bound), A) && RulesHold(LinearRules(style, ids, n), A) <==>
      Seated0(ids, A, n) && TablesFit0(ids, A, n) && |set s | 0 <= s < n && Flag(ids, A, s)| == bound
  {
    LinearHardSemantics(style, ids, n, true, bound, A);
    forall i | 0 <= i < n ensures ListChosen(ids, A, n, i, true) == SeatedOnce0(ids, A, n, i) {
    }
  }

  /** The model mip_solver.py (Inequalities) or cp-sat_solver.py
      (Enforced) builds: the variables in creation order, sum(list) == 1 per
      student over the lists as written, the validity constraints of the
      pairs and then the triples, the seat count, and a maximized term for
      every pair and triple. An assignment meets the constraints iff every
      list has exactly one chosen table, every chosen table fits the seat
      flags and the right number of flags is set; the objective's value is
      the weight of the chosen tables. */
  method LinearScript(style: Style, n: nat, prefs: Prefs)
    returns (ids: map<Var, int>, pairs: seq<Table>, triples: seq<Table>,
             hard: seq<Constraint>, rules: seq<Rule>, objective: seq<Term>)
    ensures ids == Numbering(GroupedOrder(0, n)) && ZeroIds(ids, n)
    ensures pairs == PairsUpTo(0, n, n) && triples == TriplesUpTo(0, n, n)
    ensures hard == LinearHard(ids, n, false, LinearBound(style, n))
    ensures rules == LinearRules(style, ids, n)
    ensures objective == LinearObjective(ids, prefs, n)
    ensures forall A :: AllHold(hard, A) && RulesHold(rules, A) <==>
      ListsHold(ids, A, n, false) && TablesFit0(ids, A, n) &&
      |set s | 0 <= s < n && Flag(ids, A, s)| == LinearBound(style, n)
    ensures |objective| == |ZeroCandidates(n)|
    ensures forall A :: Value(objective, A) == ChosenWeight(ids, A, ZeroWeights(prefs, n), ZeroCandidates(n))
  {
    var count;
    ids, pairs, triples, count := NumberGrouped(0, n);
    GroupedZeroIds(n);
    ZeroCandidatesFacts(n);
    var ts := pairs + triples;
    OrderNumbered(ids, n, ts);
    var lists := ListsLoop(ids, n, LinearSum);
    rules := ValidityRulesLoop(style, ids, ts);
    var bound;
    if style == Inequalities {
      bound := (n * 4) / 7;
    } else {
      bound := n / 7;
      bound := bound * 4;
    }
    hard := lists + [Exactly(ZeroFlagIds(ids, n), bound)];
    objective := WeightTermsLoop(ids, prefs, ts);
    forall A ensures AllHold(hard, A) && RulesHold(rules, A) <==>
      ListsHold(ids, A, n, false) && TablesFit0(ids, A, n) &&
      |set s | 0 <= s < n && Flag(ids, A, s)| == bound
    {
      LinearHardSemantics(style, ids, n, false, bound, A);
    }
    var w := ZeroWeights(prefs, n);
    forall A ensures Value(objective, A) == ChosenWeight(ids, A, w, ts) {
      WeightTermsValue(ids, prefs, w, ts, A);
    }
    WeightTermsValue(ids, prefs, w, ts, {});
  }

  // ---------------------------------------------------------------------
  // What the lists as written let through in mip_solver.py

  /** When A holds the ids of the variables vs, the chosen candidates and
      the set flags are those of vs. */
  lemma ChosenAre(ids: map<Var, int>, n: int, vs: set<Var>, A: set<int>)
    requires ZeroIds(ids, n) && forall v :: v in vs ==> ZeroVar(v, n) && v in ids
    requires A == set v | v in vs :: ids[v]
    ensures forall t :: Candidate(t, n) ==> (Chosen(ids, A, t) <==> X(t) in vs)
    ensures forall s :: 0 <= s < n ==> (Flag(ids, A, s) <==> Y(s) in vs)
  {
    forall t | Candidate(t, n) && Chosen(ids, A, t) ensures X(t) in vs {
      var v :| v in vs && ids[v] == ids[X(t)];
      assert ZeroVar(X(t), n);
    }
    forall s | 0 <= s < n && Flag(ids, A, s) ensures Y(s) in vs {
      var v :| v in vs && ids[v] == ids[Y(s)];
      assert ZeroVar(Y(s), n);
    }
  }

  /** With eleven students, choosing (0, 1, 2), (2, 3, 10), (4, 5), (6, 7)
      and (8, 9) with the seat flags of 4..9 meets every constraint of
      mip_solver.py, whose bound int(11 * 4 / 7) is 6; yet student 2 sits
      at two tables. */
  lemma MipAdmitsDoubleSeat(ids: map<Var, int>, n: nat)
    requires n == 11 && ZeroIds(ids, n)
    ensures var A := DoubleSeatIds(ids);
      AllHold(LinearHard(ids, n, false, LinearBound(Inequalities, n)), A) &&
      RulesHold(LinearRules(Inequalities, ids, n), A) &&
      !SeatedOnce0(ids, A, n, 2)
  {
    var vs := DoubleSeatVars();
    DoubleSeatDomain(ids);
    var A := DoubleSeatIds(ids);
    ChosenAre(ids, n, vs, A);
    MipHolds(ids, n, A);
    TwoSeats(ids, A);
  }

  lemma MipHolds(ids: map<Var, int>, n: nat, A: set<int>)
    requires n == 11 && ZeroNumbered(ids, n)
    requires forall t :: Candidate(t, n) ==> (Chosen(ids, A, t) <==> X(t) in DoubleSeatVars())
    requires forall s :: 0 <= s < n ==> (Flag(ids, A, s) <==> Y(s) in DoubleSeatVars())
    ensures AllHold(LinearHard(ids, n, false, LinearBound(Inequalities, n)), A)
    ensures RulesHold(LinearRules(Inequalities, ids, n), A)
  {
    ElevenLists(ids, A);
    SixFlags(ids, A);
    assert LinearBound(Inequalities, n) == 6;
    LinearHardSemantics(Inequalities, ids, n, false, 6, A);
  }

  lemma SixFlags(ids: map<Var, int>, A: set<int>)
    requires forall s :: 0 <= s < 11 ==> (Flag(ids, A, s) <==> Y(s) in DoubleSeatVars())
    ensures |set s | 0 <= s < 11 && Flag(ids, A, s)| == 6
  {
    assert (set s | 0 <= s < 11 && Flag(ids, A, s)) == {4, 5, 6, 7, 8, 9};
  }

  /** Student 2 sits at (0, 1, 2) and at (2, 3, 10). */
  lemma TwoSeats(ids: map<Var, int>, A: set<int>)
    requires Chosen(ids, A, Triple(0, 1, 2)) && Chosen(ids, A, Triple(2, 3, 10))
    ensures !SeatedOnce0(ids, A, 11, 2)
  {
    assert InList(Triple(0, 1, 2), 2, 11, true) && InList(Triple(2, 3, 10), 2, 11, true);
  }

  function DoubleSeatVars(): set<Var>
  {
    {X(Triple(0, 1, 2)), X(Triple(2, 3, 10)), X(Pair(4, 5)), X(Pair(6, 7)), X(Pair(8, 9)),
     Y(4), Y(5), Y(6), Y(7), Y(8), Y(9)}
  }

  /** The ids of the five tables and six seat flags. */
  function DoubleSeatIds(ids: map<Var, int>): set<int>
    requires ZeroNumbered(ids, 11)
  {
    DoubleSeatDomain(ids);
    set v | v in DoubleSeatVars() :: ids[v]
  }

  lemma DoubleSeatDomain(ids: map<Var, int>)
    requires ZeroNumbered(ids, 11)
    ensures forall v :: v in DoubleSeatVars() ==> ZeroVar(v, 11) && v in ids
  {
    assert Candidate(Triple(0, 1, 2), 11) && Candidate(Triple(2, 3, 10), 11);
    assert Candidate(Pair(4, 5), 11) && Candidate(Pair(6, 7), 11) && Candidate(Pair(8, 9), 11);
  }

  /** Each list as written holds exactly one of the five tables, and every
      chosen table fits the flags. */
  lemma ElevenLists(ids: map<Var, int>, A: set<int>)
    requires forall t :: Candidate(t, 11) ==> (Chosen(ids, A, t) <==> X(t) in DoubleSeatVars())
    requires forall s :: 0 <= s < 11 ==> (Flag(ids, A, s) <==> Y(s) in DoubleSeatVars())
    ensures ListsHold(ids, A, 11, false) && TablesFit0(ids, A, 11)
  {
    forall i | 0 <= i < 11 ensures ListChosen(ids, A, 11, i, false) {
      var t := if i <= 1 then Triple(0, 1, 2) else if i <= 3 || i == 10 then Triple(2, 3, 10)
        else if i <= 5 then Pair(4, 5) else if i <= 7 then Pair(6, 7) else Pair(8, 9);
      assert InList(t, i, 11, false) && Chosen(ids, A, t);
      forall u | InList(u, i, 11, false) && Chosen(ids, A, u) ensures u == t {
        assert X(u) in DoubleSeatVars();
      }
    }
    forall t | Candidate(t, 11) && Chosen(ids, A, t) ensures Fits(ids, A, t) {
      assert X(t) in DoubleSeatVars();
    }
  }

  // ---------------------------------------------------------------------
  // The reports

  /** Student numbers as printed: from 1. */
  function Shift(t: Table): (r: Table)
  {
    match t
    case Pair(a, b) => Pair(a + 1, b + 1)
    case Triple(a, b, c) => Triple(a + 1, b + 1, c + 1)
  }

  /** A 0-indexed candidate prints as a well-formed table of 1..N, and no
      two tables print alike. */
  lemma ShiftFacts(t: Table, n: int)
    ensures Candidate(t, n) <==> WellFormed(Shift(t), n)
    ensures forall u :: Shift(u) == Shift(t) ==> u == t
  {
  }

  function Shifted(ts: seq<Table>): (r: seq<Table>)
    ensures |r| == |ts| && forall p :: 0 <= p < |ts| ==> r[p] == Shift(ts[p])
  {
    if ts == [] then [] else Shifted(ts[..|ts| - 1]) + [Shift(ts[|ts| - 1])]
  }

  /** The report loops of the three scripts: when a solution was found, for
      each student i its chosen pairs (i, j), then its chosen triples
      (i, j, k), printed from 1. Every chosen candidate is printed, once,
      and nothing else. */
  method Report(ids: map<Var, int>, n: nat, found: bool, A: set<int>) returns (printed: seq<Table>)
    ensures printed == Shifted(if found then ChosenTables(ids, A, PrintOrder(n, n)) else [])
    ensures forall t :: Shift(t) in printed <==> found && Candidate(t, n) && Chosen(ids, A, t)
    ensures forall u :: u in printed ==> WellFormed(u, n)
    ensures Distinct(printed)
  {
    printed := [];
    var ts := PrintOrder(n, n);
    if found {
      var p := 0;
      while p < |ts|
        invariant 0 <= p <= |ts|
        invariant printed == Shifted(ChosenTables(ids, A, ts[..p]))
      {
        assert ts[..p + 1][..p] == ts[..p];
        var t := ts[p];
        if X(t) in ids && ids[X(t)] in A {
          printed := printed + [Shift(t)];
        }
        p := p + 1;
      }
      assert ts[..|ts|] == ts;
    }
    ReportFacts(ids, n, found, A);
  }

  lemma ReportFacts(ids: map<Var, int>, n: nat, found: bool, A: set<int>)
    ensures var printed := Shifted(if found then ChosenTables(ids, A, PrintOrder(n, n)) else []);
      (forall t :: Shift(t) in printed <==> found && Candidate(t, n) && Chosen(ids, A, t)) &&
      (forall u :: u in printed ==> WellFormed(u, n)) &&
      Distinct(printed)
  {
    var chosen := if found then ChosenTables(ids, A, PrintOrder(n, n)) else [];
    var printed := Shifted(chosen);
    PrintOrderFacts(n, n);
    ChosenTablesFacts(ids, A, PrintOrder(n, n));
    forall t ensures Shift(t) in printed <==> t in chosen {
      ShiftFacts(t, n);
      if Shift(t) in printed {
        var p :| 0 <= p < |printed| && printed[p] == Shift(t);
        assert chosen[p] == t;
      }
      if t in chosen {
        var p :| 0 <= p < |chosen| && chosen[p] == t;
        assert printed[p] == Shift(t);
      }
    }
    forall u | u in printed ensures WellFormed(u, n) {
      var p :| 0 <= p < |printed| && printed[p] == u;
      assert chosen[p] in chosen;
      ShiftFacts(chosen[p], n);
    }
    forall p, q | 0 <= p < q < |printed| ensures printed[p] != printed[q] {
      ShiftFacts(chosen[p], n);
    }
  }

  /** The true ids of an RC2 model as rc2_solver.py reads them: id x is
      true when entry x - 1 is positive. */
  function ModelTrue(solution: seq<int>): (r: set<int>)
    ensures forall x :: x in r <==> 1 <= x <= |solution| && solution[x - 1] > 0
  {
    var r := set p | 0 <= p < |solution| && solution[p] > 0 :: p + 1;
    assert forall x :: 1 <= x <= |solution| && solution[x - 1] > 0 ==> x in r by {
      forall x | 1 <= x <= |solution| && solution[x - 1] > 0 ensures x in r {
        var p := x - 1;
        assert solution[p] > 0;
      }
    }
    r
  }

  /** On a model in pysat form (entry p is p + 1 or -(p + 1)), reading by
      position finds exactly the positive literals. */
  lemma ModelTrueIsTrueIds(solution: seq<int>)
    requires forall p :: 0 <= p < |solution| ==> solution[p] == p + 1 || solution[p] == -(p + 1)
    ensures ModelTrue(solution) == TrueIds(solution)
  {
    forall x | x in TrueIds(solution) ensures x in ModelTrue(solution) {
      var p :| 0 <= p < |solution| && solution[p] == x;
    }
  }
}
