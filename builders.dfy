/** The loops that build a TCPC model, shared by every solver that numbers
    its variables from 1 in the interleaved order. Each method changes
    nothing and returns what its loop collects; its postcondition ties the
    result to the specification functions of the modules it imports, whose
    meaning is proved there. */
module Builders {
  import opened Tables
  import opened Cnf
  import opened Weights
  import opened Membership
  import opened Seating
  import opened Encoding

  // ---------------------------------------------------------------------
  // Numbering the variables

  /** The counter loop of _initialize_variables: for each student i the
      pairs (i, j), then the triples (i, j, k), then y_i, each taking the
      next id from 1 on. pairs and triples are the keys of the pair and
      triple dictionaries in insertion order; next is the first id left. */
  method NumberVariables(n: nat) returns (ids: map<Var, int>, pairs: seq<Table>, triples: seq<Table>, next: int)
    ensures ids == Numbering(VarOrder(n))
    ensures pairs == PairsUpTo(1, n + 1, n + 1) && triples == TriplesUpTo(1, n + 1, n + 1)
    ensures next == C2(n) + C3(n) + n + 1
  {
    ids, pairs, triples, next := map[], [], [], 1;
    var i := 1;
    while i <= n
      invariant 1 <= i <= n + 1
      invariant Counted(ids, next, map[], 1, Interleaved(i - 1, n))
      invariant pairs == PairsUpTo(1, i, n + 1) && triples == TriplesUpTo(1, i, n + 1)
    {
      var ids1, next1 := ids, next;
      var pairRow, tripleRow;
      ids, pairRow, tripleRow, next := NumberBlock(i, n, ids, next);
      CountedConcat(ids1, next1, ids, next, map[], 1, Interleaved(i - 1, n), Block(i, n), Interleaved(i, n));
      pairs, triples := pairs + pairRow, triples + tripleRow;
      i := i + 1;
    }
    CountedNumbering(ids, next, VarOrder(n));
    VarOrderFacts(n);
  }

  /** One iteration of the outer loop of _initialize_variables: the ids of
      the variables led by student i, numbered on from next0. */
  method NumberBlock(i: int, n: nat, ids0: map<Var, int>, next0: int)
    returns (ids: map<Var, int>, pairRow: seq<Table>, tripleRow: seq<Table>, next: int)
    requires 1 <= i <= n
    ensures Counted(ids, next, ids0, next0, Block(i, n))
    ensures pairRow == PairsAbove(i, i + 1, n + 1) && tripleRow == LedBlock(i, i + 1, n + 1, n + 1)
  {
    var ids1, next1;
    ids1, pairRow, next1 := NumberPairs(i, n, ids0, next0);
    ids, tripleRow, next := NumberTripleBlock(i, n, ids1, next1);
    CountedConcat(ids1, next1, ids, next, ids0, next0, PairRow(i, n + 1), TripleBlock(i, n + 1, n),
                  PairRow(i, n + 1) + TripleBlock(i, n + 1, n));
    CountedSnoc(ids, next, ids0, next0, PairRow(i, n + 1) + TripleBlock(i, n + 1, n), Y(i), Block(i, n));
    ids, next := ids[Y(i) := next], next + 1;
  }

  /** The triples (i, j, k), i < j < k, numbered on from next0. */
  method NumberTripleBlock(i: int, n: nat, ids0: map<Var, int>, next0: int)
    returns (ids: map<Var, int>, tripleRow: seq<Table>, next: int)
    requires 1 <= i <= n
    ensures Counted(ids, next, ids0, next0, TripleBlock(i, n + 1, n))
    ensures tripleRow == LedBlock(i, i + 1, n + 1, n + 1)
  {
    ids, next := ids0, next0;
    tripleRow := [];
    var j := i + 1;
    while j <= n
      invariant i + 1 <= j <= n + 1
      invariant Counted(ids, next, ids0, next0, TripleBlock(i, j, n))
      invariant tripleRow == LedBlock(i, i + 1, j, n + 1)
    {
      var ids2, next2 := ids, next;
      var row;
      ids, row, next := NumberTriples(i, j, n, ids, next);
      CountedConcat(ids2, next2, ids, next, ids0, next0, TripleBlock(i, j, n), TripleRow(i, j, n + 1), TripleBlock(i, j + 1, n));
      tripleRow := tripleRow + row;
      j := j + 1;
    }
    assert j == n + 1;
  }

  /** The pairs (i, j), j > i, numbered on from next0. */
  method NumberPairs(i: int, n: nat, ids0: map<Var, int>, next0: int)
    returns (ids: map<Var, int>, pairRow: seq<Table>, next: int)
    requires 1 <= i <= n
    ensures Counted(ids, next, ids0, next0, PairRow(i, n + 1))
    ensures pairRow == PairsAbove(i, i + 1, n + 1)
  {
    ids, next := ids0, next0;
    pairRow := [];
    var j := i + 1;
    while j <= n
      invariant i + 1 <= j <= n + 1
      invariant Counted(ids, next, ids0, next0, PairRow(i, j))
      invariant pairRow == PairsAbove(i, i + 1, j)
    {
      CountedSnoc(ids, next, ids0, next0, PairRow(i, j), X(Pair(i, j)), PairRow(i, j + 1));
      ids, next := ids[X(Pair(i, j)) := next], next + 1;
      pairRow := pairRow + [Pair(i, j)];
      j := j + 1;
    }
    assert j == n + 1;
  }

  /** The triples (i, j, k), k > j, numbered on from next0. */
  method NumberTriples(i: int, j: int, n: nat, ids0: map<Var, int>, next0: int)
    returns (ids: map<Var, int>, row: seq<Table>, next: int)
    requires 1 <= i < j <= n
    ensures Counted(ids, next, ids0, next0, TripleRow(i, j, n + 1))
    ensures row == RowC(i, j, j + 1, n + 1)
  {
    ids, next := ids0, next0;
    row := [];
    var k := j + 1;
    while k <= n
      invariant j + 1 <= k <= n + 1
      invariant Counted(ids, next, ids0, next0, TripleRow(i, j, k))
      invariant row == RowC(i, j, j + 1, k)
    {
      CountedSnoc(ids, next, ids0, next0, TripleRow(i, j, k), X(Triple(i, j, k)), TripleRow(i, j, k + 1));
      ids, next := ids[X(Triple(i, j, k)) := next], next + 1;
      row := row + [Triple(i, j, k)];
      k := k + 1;
    }
    assert k == n + 1;
  }

  // ---------------------------------------------------------------------
  // Hard constraints

  /** The nested loops that append [-clause[m], -clause[q]] for m < q. */
  method PairwiseLoop(lits: seq<int>) returns (cs: seq<seq<int>>)
    ensures cs == AtMostOnePairwise(lits)
  {
    cs := [];
    var m := 0;
    while m < |lits|
      invariant 0 <= m <= |lits|
      invariant cs == Pairwise(lits, m)
    {
      var q := m + 1;
      while q < |lits|
        invariant m + 1 <= q <= |lits|
        invariant cs == Pairwise(lits, m) + PairwiseRow(lits, m, q)
      {
        cs := cs + [[-lits[m], -lits[q]]];
        q := q + 1;
      }
      m := m + 1;
    }
  }

  /** The constraints a solver adds for one membership list. */
  method ExactlyOneLoop(enc: OneOf, clause: seq<int>) returns (cs: seq<Constraint>)
    ensures cs == EncodeOne(enc, clause)
  {
    match enc {
      case CardinalityAtMost =>
        cs := [AtMost(clause, 1), Clause(clause)];
      case LinearSum =>
        cs := [Exactly(clause, 1)];
      case PairwiseClauses =>
        var atMostOne := PairwiseLoop(clause);
        cs := [Clause(clause)] + Clauses(atMostOne);
    }
  }

  /** _add_single_assignment_clauses: for each student, the constraints
      saying that exactly one id of its membership list is true. */
  method SingleAssignmentLoop(ids: map<Var, int>, n: nat, enc: OneOf) returns (cs: seq<Constraint>)
    requires IdsFor(ids, n)
    ensures cs == AssignmentConstraints(ids, n, n, enc)
  {
    cs := [];
    var i := 1;
    while i <= n
      invariant 1 <= i <= n + 1
      invariant cs == AssignmentConstraints(ids, n, i - 1, enc)
    {
      var clause := MembershipIds(ids, i, n);
      var step := ExactlyOneLoop(enc, clause);
      AssignmentStep(ids, n, i, enc, cs, clause, step);
      cs := cs + step;
      i := i + 1;
    }
    assert i - 1 == n;
  }

  lemma AssignmentStep(ids: map<Var, int>, n: nat, i: int, enc: OneOf, cs: seq<Constraint>, clause: seq<int>, step: seq<Constraint>)
    requires IdsFor(ids, n) && 1 <= i <= n
    requires cs == AssignmentConstraints(ids, n, i - 1, enc) && clause == MembershipIds(ids, i, n) && step == EncodeOne(enc, clause)
    ensures cs + step == AssignmentConstraints(ids, n, i, enc)
  {
  }

  /** _add_valid_table_clauses: two clauses per pair and then three per
      triple, in dictionary order. */
  method ValidityLoop(ids: map<Var, int>, pairs: seq<Table>, triples: seq<Table>) returns (cs: seq<seq<int>>)
    requires forall t :: t in pairs + triples ==> X(t) in ids && forall s :: s in Members(t) ==> Y(s) in ids
    ensures cs == ValidityClauses(ids, pairs + triples)
  {
    var ts := pairs + triples;
    cs := [];
    var p := 0;
    while p < |ts|
      invariant 0 <= p <= |ts|
      invariant cs == ValidityClauses(ids, ts[..p])
    {
      var t := ts[p];
      var x := ids[X(t)];
      var step;
      match t {
        case Pair(a, b) =>
          step := [[-x, ids[Y(a)]], [-x, ids[Y(b)]]];
        case Triple(a, b, c) =>
          step := [[-x, -ids[Y(a)]], [-x, -ids[Y(b)]], [-x, -ids[Y(c)]]];
      }
      ValidityStep(ids, ts, p, cs, step);
      cs := cs + step;
      p := p + 1;
    }
    assert ts[..|ts|] == ts;
  }

  lemma ValidityStep(ids: map<Var, int>, ts: seq<Table>, p: int, cs: seq<seq<int>>, step: seq<seq<int>>)
    requires forall t :: t in ts ==> X(t) in ids && forall s :: s in Members(t) ==> Y(s) in ids
    requires 0 <= p < |ts| && cs == ValidityClauses(ids, ts[..p]) && step == TableClauses(ids, ts[p])
    ensures cs + step == ValidityClauses(ids, ts[..p + 1])
  {
    assert ts[..p + 1][..p] == ts[..p];
  }

  // ---------------------------------------------------------------------
  // Weights

  /** calculate_weights: for each student i, the pairs (i, j) and then the
      triples (i, j, k), each weighed from the occurrence counts. */
  method CalculateWeights(prefs: Prefs, n: nat) returns (w: map<Table, int>)
    ensures WeightTable(w, prefs, n)
  {
    w := map[];
    var i := 1;
    while i <= n
      invariant 1 <= i <= n + 1
      invariant forall t :: t in w <==> WellFormed(t, n) && t.a < i
      invariant forall t :: t in w ==> w[t] == Weight(prefs, t)
    {
      var j := i + 1;
      while j <= n
        invariant i + 1 <= j <= n + 1
        invariant forall t :: t in w <==> WellFormed(t, n) && (t.a < i || (t.a == i && t.Pair? && t.b < j))
        invariant forall t :: t in w ==> w[t] == Weight(prefs, t)
      {
        var wi := CountIn(Get(prefs, i), {i, j});
        var wj := CountIn(Get(prefs, j), {i, j});
        w := w[Pair(i, j) := 16 * wi * wj];
        j := j + 1;
      }
      j := i + 1;
      while j <= n
        invariant i + 1 <= j <= n + 1
        invariant forall t :: t in w <==> WellFormed(t, n) && (t.a < i || (t.a == i && (t.Pair? || t.b < j)))
        invariant forall t :: t in w ==> w[t] == Weight(prefs, t)
      {
        var k := j + 1;
        while k <= n
          invariant j + 1 <= k <= n + 1
          invariant forall t :: t in w <==>
            WellFormed(t, n) && (t.a < i || (t.a == i && (t.Pair? || t.b < j || (t.b == j && t.c < k))))
          invariant forall t :: t in w ==> w[t] == Weight(prefs, t)
        {
          var wi := CountIn(Get(prefs, i), {i, j, k});
          var wj := CountIn(Get(prefs, j), {i, j, k});
          var wk := CountIn(Get(prefs, k), {i, j, k});
          w := w[Triple(i, j, k) := 3 * wi * wj * wk];
          k := k + 1;
        }
        j := j + 1;
      }
      i := i + 1;
    }
  }
  // ---------------------------------------------------------------------
  // Soft clauses and objective terms. Each loop walks the pair dictionary
  // and then the triple dictionary, that is the tables ts = pairs + triples.

  /** add_constraint_through_preferences: the unit clause [-x] for every
      table whose weight is not its full weight. */
  method PruneLoop(ids: map<Var, int>, w: map<Table, int>, ts: seq<Table>) returns (units: seq<seq<int>>)
    requires Keyed(ids, w, ts)
    ensures units == PruneUnits(ids, w, ts)
  {
    units := [];
    var p := 0;
    while p < |ts|
      invariant 0 <= p <= |ts|
      invariant units == PruneUnits(ids, w, ts[..p])
    {
      assert ts[..p + 1][..p] == ts[..p];
      var t := ts[p];
      if w[t] != FullWeight(t) {
        units := units + [[-ids[X(t)]]];
      }
      p := p + 1;
    }
    assert ts[..|ts|] == ts;
  }

  /** _add_soft_clauses_minimizing: [-x] weighing 2 - w or 3 - w for every
      table below its full weight. */
  method MinimizingLoop(ids: map<Var, int>, w: map<Table, int>, ts: seq<Table>) returns (soft: seq<Soft>)
    requires Keyed(ids, w, ts)
    ensures soft == MinimizingSoft(ids, w, ts)
  {
    soft := [];
    var p := 0;
    while p < |ts|
      invariant 0 <= p <= |ts|
      invariant soft == MinimizingSoft(ids, w, ts[..p])
    {
      assert ts[..p + 1][..p] == ts[..p];
      var t := ts[p];
      if w[t] < FullWeight(t) {
        soft := soft + [Soft([-ids[X(t)]], FullWeight(t) - w[t])];
      }
      p := p + 1;
    }
    assert ts[..|ts|] == ts;
  }

  /** _add_soft_clauses_maximizing with pruning: soft [x] weighing w when w
      is positive, and otherwise the hard unit clause [-x]. */
  method PositiveLoop(ids: map<Var, int>, w: map<Table, int>, ts: seq<Table>) returns (soft: seq<Soft>, units: seq<seq<int>>)
    requires Keyed(ids, w, ts)
    ensures soft == PositiveSoft(ids, w, ts) && units == ZeroUnits(ids, w, ts)
  {
    soft, units := [], [];
    var p := 0;
    while p < |ts|
      invariant 0 <= p <= |ts|
      invariant soft == PositiveSoft(ids, w, ts[..p]) && units == ZeroUnits(ids, w, ts[..p])
    {
      assert ts[..p + 1][..p] == ts[..p];
      var t := ts[p];
      if w[t] > 0 {
        soft := soft + [Soft([ids[X(t)]], w[t])];
      } else {
        units := units + [[-ids[X(t)]]];
      }
      p := p + 1;
    }
    assert ts[..|ts|] == ts;
  }

  /** _add_soft_clauses_maximizing over fully satisfied tables: soft [x]
      weighing 2 or 3 for every table at its full weight. */
  method FullLoop(ids: map<Var, int>, w: map<Table, int>, ts: seq<Table>) returns (soft: seq<Soft>)
    requires Keyed(ids, w, ts)
    ensures soft == FullSoft(ids, w, ts)
  {
    soft := [];
    var p := 0;
    while p < |ts|
      invariant 0 <= p <= |ts|
      invariant soft == FullSoft(ids, w, ts[..p])
    {
      assert ts[..p + 1][..p] == ts[..p];
      var t := ts[p];
      if w[t] == FullWeight(t) {
        soft := soft + [Soft([ids[X(t)]], w[t])];
      }
      p := p + 1;
    }
    assert ts[..|ts|] == ts;
  }

  /** The minimizing CP-SAT objective: (2 - w) * x or (3 - w) * x for every
      table below its full weight. */
  method MinimizingTermsLoop(ids: map<Var, int>, w: map<Table, int>, ts: seq<Table>) returns (terms: seq<Term>)
    requires Keyed(ids, w, ts)
    ensures terms == MinimizingTerms(ids, w, ts)
  {
    terms := [];
    var p := 0;
    while p < |ts|
      invariant 0 <= p <= |ts|
      invariant terms == MinimizingTerms(ids, w, ts[..p])
    {
      assert ts[..p + 1][..p] == ts[..p];
      var t := ts[p];
      if w[t] < FullWeight(t) {
        terms := terms + [Term(FullWeight(t) - w[t], ids[X(t)])];
      }
      p := p + 1;
    }
    assert ts[..|ts|] == ts;
  }

  /** The maximizing CP-SAT objective: w * x for every table of positive
      weight. */
  method PositiveTermsLoop(ids: map<Var, int>, w: map<Table, int>, ts: seq<Table>) returns (terms: seq<Term>)
    requires Keyed(ids, w, ts)
    ensures terms == PositiveTerms(ids, w, ts)
  {
    terms := [];
    var p := 0;
    while p < |ts|
      invariant 0 <= p <= |ts|
      invariant terms == PositiveTerms(ids, w, ts[..p])
    {
      assert ts[..p + 1][..p] == ts[..p];
      var t := ts[p];
      if w[t] > 0 {
        terms := terms + [Term(w[t], ids[X(t)])];
      }
      p := p + 1;
    }
    assert ts[..|ts|] == ts;
  }
}
