/** The membership lists and hard constraints of the scripts that number
    their students from 0: rc2_solver.py, mip_solver.py, cp-sat_solver.py
    and temp5.py. Students are 0..N-1.

    The four scripts write the same three-branch list of the tables that
    contain student i. For a student strictly between the first and the last
    it leaves out the triples (j, k, i) with j < k < i, so the exactly-one
    constraint of that student does not see them. ListedTables is the list as
    written, CompleteTables the list with those triples added; the hard
    constraints below take either one. */
module ZeroIndexed {
  import opened Tables
  import opened Cnf
  import opened Weights
  import opened Membership
  import opened Seating
  import opened Encoding
  import opened Grouped

  /** A candidate table of the 0-indexed scripts. */
  predicate Candidate(t: Table, n: int)
  {
    InRange(t, 0, n - 1)
  }

  predicate ZeroVar(v: Var, n: int)
  {
    match v
    case X(t) => Candidate(t, n)
    case Y(s) => 0 <= s < n
  }

  /** ids gives every variable of an n-student 0-indexed instance a
      positive id. */
  ghost predicate ZeroNumbered(ids: map<Var, int>, n: int)
  {
    (forall t :: Candidate(t, n) ==> X(t) in ids && ids[X(t)] > 0) &&
    (forall s :: 0 <= s < n ==> Y(s) in ids && ids[Y(s)] > 0)
  }

  /** ... and no two of them the same id. */
  ghost predicate ZeroIds(ids: map<Var, int>, n: int)
  {
    ZeroNumbered(ids, n) &&
    forall v, w :: ZeroVar(v, n) && ZeroVar(w, n) && v in ids && w in ids && ids[v] == ids[w] ==> v == w
  }

  /** The counter loops of rc2_solver.py (and the creation order of the
      MIP and CP-SAT variables) number the variables of students 0..N-1
      one by one. */
  lemma GroupedZeroIds(n: nat)
    ensures ZeroIds(Numbering(GroupedOrder(0, n)), n)
  {
    var order := GroupedOrder(0, n);
    GroupedFacts(0, n);
    NumberingOneToOne(order);
    forall v | ZeroVar(v, n) ensures v in Numbering(order) && Numbering(order)[v] > 0 {
      assert v in order;
      var p :| 0 <= p < |order| && order[p] == v;
      NumberingAt(order, p);
    }
    forall t | Candidate(t, n) ensures X(t) in Numbering(order) && Numbering(order)[X(t)] > 0 {
      assert ZeroVar(X(t), n);
    }
    forall s | 0 <= s < n ensures Y(s) in Numbering(order) && Numbering(order)[Y(s)] > 0 {
      assert ZeroVar(Y(s), n);
    }
  }

  // ---------------------------------------------------------------------
  // The membership lists

  /** The tables listed for student i, branch by branch as the scripts
      write them. */
  function ListedTables(i: int, n: int): seq<Table>
    requires 0 <= i < n
  {
    if i == 0 then
      PairsAbove(i, 1, n) + LedBlock(i, 1, n - 1, n)
    else if i == n - 1 then
      PairsBelow(i, 0, n - 1) + LowJBlock(i, 0, n - 2, n - 1)
    else
      PairsBelow(i, 0, i) + PairsAbove(i, i + 1, n) + MidBlock(i, 0, i, n) + LedBlock(i, i + 1, n - 1, n)
  }

  /** The list with the missing triples (j, k, i), j < k < i, put before
      the triples (j, i, k). */
  function CompleteTables(i: int, n: int): seq<Table>
    requires 0 <= i < n
  {
    if i == 0 then
      PairsAbove(i, 1, n) + LedBlock(i, 1, n - 1, n)
    else if i == n - 1 then
      PairsBelow(i, 0, n - 1) + LowJBlock(i, 0, n - 2, n - 1)
    else
      PairsBelow(i, 0, i) + PairsAbove(i, i + 1, n) + LowKBlock(i, 1, i, 0)
      + MidBlock(i, 0, i, n) + LedBlock(i, i + 1, n - 1, n)
  }

  /** The list as written holds every candidate containing i once, except,
      for a student strictly between the first and the last, the triples in
      which i is the largest member. */
  lemma ListedExact(i: int, n: int)
    requires 0 <= i < n
    ensures forall t :: t in ListedTables(i, n) <==>
      Candidate(t, n) && i in Members(t) && !(0 < i < n - 1 && t.Triple? && t.c == i)
    ensures Distinct(ListedTables(i, n))
  {
    if i == 0 || i == n - 1 {
      EndsExact(i, n);
    } else {
      var pairs := PairsBelow(i, 0, i) + PairsAbove(i, i + 1, n);
      var triples := MidBlock(i, 0, i, n) + LedBlock(i, i + 1, n - 1, n);
      assert ListedTables(i, n) == pairs + triples;
      MiddlePairsZero(i, n);
      ListedMiddleTriples(i, n);
      assert forall t :: t in pairs ==> t.Pair?;
      assert forall t :: t in triples ==> t.Triple?;
      DistinctConcat(pairs, triples);
    }
  }

  lemma ListedMiddleTriples(i: int, n: int)
    requires 0 < i < n - 1
    ensures forall t :: t in MidBlock(i, 0, i, n) + LedBlock(i, i + 1, n - 1, n) <==>
      t.Triple? && Candidate(t, n) && i in Members(t) && t.c != i
    ensures Distinct(MidBlock(i, 0, i, n) + LedBlock(i, i + 1, n - 1, n))
  {
    var t2, t3 := MidBlock(i, 0, i, n), LedBlock(i, i + 1, n - 1, n);
    MidBlockFacts(i, 0, i, n);
    LedBlockFacts(i, i + 1, n - 1, n);
    DistinctConcat(t2, t3);
  }

  /** The corrected list holds every candidate containing i, once. */
  lemma CompleteExact(i: int, n: int)
    requires 0 <= i < n
    ensures forall t :: t in CompleteTables(i, n) <==> Candidate(t, n) && i in Members(t)
    ensures Distinct(CompleteTables(i, n))
  {
    if i == 0 || i == n - 1 {
      EndsExact(i, n);
    } else {
      var pairs := PairsBelow(i, 0, i) + PairsAbove(i, i + 1, n);
      var low := LowKBlock(i, 1, i, 0);
      var triples := MidBlock(i, 0, i, n) + LedBlock(i, i + 1, n - 1, n);
      assert CompleteTables(i, n) == pairs + (low + triples);
      MiddlePairsZero(i, n);
      CompleteMiddleTriples(i, n);
      assert forall t :: t in pairs ==> t.Pair?;
      assert forall t :: t in low + triples ==> t.Triple?;
      DistinctConcat(pairs, low + triples);
    }
  }

  lemma CompleteMiddleTriples(i: int, n: int)
    requires 0 < i < n - 1
    ensures forall t :: t in LowKBlock(i, 1, i, 0) + (MidBlock(i, 0, i, n) + LedBlock(i, i + 1, n - 1, n)) <==>
      t.Triple? && Candidate(t, n) && i in Members(t)
    ensures Distinct(LowKBlock(i, 1, i, 0) + (MidBlock(i, 0, i, n) + LedBlock(i, i + 1, n - 1, n)))
  {
    var low := LowKBlock(i, 1, i, 0);
    LowKBlockFacts(i, 1, i, 0);
    ListedMiddleTriples(i, n);
    DistinctConcat(low, MidBlock(i, 0, i, n) + LedBlock(i, i + 1, n - 1, n));
  }

  /** The first and the last student's lists, the same in both versions. */
  lemma EndsExact(i: int, n: int)
    requires 0 <= i < n && (i == 0 || i == n - 1)
    ensures ListedTables(i, n) == CompleteTables(i, n)
    ensures forall t :: t in ListedTables(i, n) <==> Candidate(t, n) && i in Members(t)
    ensures Distinct(ListedTables(i, n))
  {
    if i == 0 {
      FirstExact(n);
    } else {
      LastExact(n);
    }
  }

  lemma FirstExact(n: int)
    requires 0 < n
    ensures forall t :: t in PairsAbove(0, 1, n) + LedBlock(0, 1, n - 1, n) <==> Candidate(t, n) && 0 in Members(t)
    ensures Distinct(PairsAbove(0, 1, n) + LedBlock(0, 1, n - 1, n))
  {
    PairsAboveFacts(0, 1, n);
    LedBlockFacts(0, 1, n - 1, n);
    DistinctConcat(PairsAbove(0, 1, n), LedBlock(0, 1, n - 1, n));
  }

  lemma LastExact(n: int)
    requires 0 < n
    ensures forall t :: t in PairsBelow(n - 1, 0, n - 1) + LowJBlock(n - 1, 0, n - 2, n - 1) <==>
      Candidate(t, n) && n - 1 in Members(t)
    ensures Distinct(PairsBelow(n - 1, 0, n - 1) + LowJBlock(n - 1, 0, n - 2, n - 1))
  {
    PairsBelowFacts(n - 1, 0, n - 1);
    LowJBlockFacts(n - 1, 0, n - 2, n - 1);
    DistinctConcat(PairsBelow(n - 1, 0, n - 1), LowJBlock(n - 1, 0, n - 2, n - 1));
  }

  lemma MiddlePairsZero(i: int, n: int)
    requires 0 < i < n - 1
    ensures forall t :: t in PairsBelow(i, 0, i) + PairsAbove(i, i + 1, n) <==>
      t.Pair? && Candidate(t, n) && i in Members(t)
    ensures Distinct(PairsBelow(i, 0, i) + PairsAbove(i, i + 1, n))
  {
    PairsBelowFacts(i, 0, i);
    PairsAboveFacts(i, i + 1, n);
    DistinctConcat(PairsBelow(i, 0, i), PairsAbove(i, i + 1, n));
  }

  /** A student strictly between the first and the last, from 2 on, does not
      find the triple (0, 1, i) in its list as written, though it sits there. */
  lemma ListedMissesLowTriple(i: int, n: int)
    requires 2 <= i <= n - 2
    ensures Candidate(Triple(0, 1, i), n) && i in Members(Triple(0, 1, i))
    ensures Triple(0, 1, i) !in ListedTables(i, n)
    ensures Triple(0, 1, i) in CompleteTables(i, n)
  {
    ListedExact(i, n);
    CompleteExact(i, n);
  }

  // ---------------------------------------------------------------------
  // What exactly one true id of a list says

  /** Exactly one table of ts is chosen. */
  ghost predicate OneChosen(ids: map<Var, int>, A: set<int>, ts: seq<Table>)
  {
    exists t :: t in ts && Chosen(ids, A, t) && forall u :: u in ts && Chosen(ids, A, u) ==> u == t
  }

  /** Over a list of distinct candidates, exactly one true id is exactly one
      chosen table. */
  lemma ExactlyOneChosen(ids: map<Var, int>, n: int, ts: seq<Table>, A: set<int>)
    requires ZeroNumbered(ids, n) && Distinct(ts) && forall t :: t in ts ==> Candidate(t, n)
    ensures forall t :: t in ts ==> X(t) in ids
    ensures ExactlyOne(IdsOf(ids, ts), A) <==> OneChosen(ids, A, ts)
  {
    var lits := IdsOf(ids, ts);
    if ExactlyOne(lits, A) {
      var p :| 0 <= p < |lits| && LitTrue(lits[p], A) &&
        forall q :: 0 <= q < |lits| && LitTrue(lits[q], A) ==> q == p;
      var t := ts[p];
      assert Chosen(ids, A, t);
      forall u | u in ts && Chosen(ids, A, u) ensures u == t {
        var q :| 0 <= q < |ts| && ts[q] == u;
        assert LitTrue(lits[q], A);
      }
    }
    if OneChosen(ids, A, ts) {
      var t :| t in ts && Chosen(ids, A, t) && forall u :: u in ts && Chosen(ids, A, u) ==> u == t;
      var p :| 0 <= p < |ts| && ts[p] == t;
      assert LitTrue(lits[p], A);
      forall q | 0 <= q < |lits| && LitTrue(lits[q], A) ensures q == p {
        assert Chosen(ids, A, ts[q]);
        assert ts[q] in ts;
      }
    }
  }

  /** t is in the list of student i: a candidate containing i, which for
      the list as written and a student strictly between the first and the
      last is not a triple whose largest member is i. */
  predicate InList(t: Table, i: int, n: int, complete: bool)
  {
    Candidate(t, n) && i in Members(t) && (complete || !(0 < i < n - 1 && t.Triple? && t.c == i))
  }

  /** Exactly one chosen table is in the list of student i. */
  ghost predicate ListChosen(ids: map<Var, int>, A: set<int>, n: int, i: int, complete: bool)
  {
    exists t :: InList(t, i, n, complete) && Chosen(ids, A, t) &&
      forall u :: InList(u, i, n, complete) && Chosen(ids, A, u) ==> u == t
  }

  /** Exactly one chosen candidate contains student i. */
  ghost predicate SeatedOnce0(ids: map<Var, int>, A: set<int>, n: int, i: int)
  {
    ListChosen(ids, A, n, i, true)
  }

  ghost predicate Seated0(ids: map<Var, int>, A: set<int>, n: int)
  {
    forall i :: 0 <= i < n ==> SeatedOnce0(ids, A, n, i)
  }

  /** Every chosen candidate fits the seat flags of its members. */
  ghost predicate TablesFit0(ids: map<Var, int>, A: set<int>, n: int)
  {
    forall t :: Candidate(t, n) && Chosen(ids, A, t) ==> Fits(ids, A, t)
  }

  // ---------------------------------------------------------------------
  // The exactly-one constraints of students 0..m-1

  /** The list of student i, as written or corrected. */
  function TablesOf(i: int, n: int, complete: bool): seq<Table>
    requires 0 <= i < n
  {
    if complete then CompleteTables(i, n) else ListedTables(i, n)
  }

  lemma TablesOfFacts(i: int, n: int, complete: bool)
    requires 0 <= i < n
    ensures Distinct(TablesOf(i, n, complete))
    ensures forall t :: t in TablesOf(i, n, complete) <==> InList(t, i, n, complete)
  {
    ListedExact(i, n);
    CompleteExact(i, n);
  }

  /** One chosen table in the list of i as a sequence is one chosen table
      in it as a set. */
  lemma OneChosenInList(ids: map<Var, int>, A: set<int>, i: int, n: int, complete: bool)
    requires 0 <= i < n
    ensures OneChosen(ids, A, TablesOf(i, n, complete)) <==> ListChosen(ids, A, n, i, complete)
  {
    TablesOfFacts(i, n, complete);
  }

  /** The ids of the list of student i. */
  function ListIds(ids: map<Var, int>, i: int, n: int, complete: bool): seq<int>
    requires ZeroNumbered(ids, n) && 0 <= i < n
  {
    TablesOfFacts(i, n, complete);
    IdsOf(ids, TablesOf(i, n, complete))
  }

  lemma ListIdsPositive(ids: map<Var, int>, i: int, n: int, complete: bool)
    requires ZeroNumbered(ids, n) && 0 <= i < n
    ensures Positive(ListIds(ids, i, n, complete))
  {
    var ts := TablesOf(i, n, complete);
    TablesOfFacts(i, n, complete);
    var lits := IdsOf(ids, ts);
    assert ListIds(ids, i, n, complete) == lits;
    forall p | 0 <= p < |lits| ensures lits[p] > 0 {
      assert ts[p] in ts;
      assert Candidate(ts[p], n);
      assert lits[p] == ids[X(ts[p])];
    }
  }

  /** Every literal of lits is a positive id. */
  ghost predicate Positive(lits: seq<int>)
  {
    forall p :: 0 <= p < |lits| ==> lits[p] > 0
  }

  /** The id lists of students 0..n-1, list i for student i. */
  function ZeroLists(ids: map<Var, int>, n: nat, complete: bool): (r: seq<seq<int>>)
    requires ZeroNumbered(ids, n)
    ensures |r| == n
  {
    seq(n, i requires 0 <= i < n => ListIds(ids, i, n, complete))
  }

  /** One exactly-one constraint per list, list after list. */
  function EncodeAll(enc: OneOf, lists: seq<seq<int>>): seq<Constraint>
  {
    if lists == [] then [] else EncodeAll(enc, lists[..|lists| - 1]) + EncodeOne(enc, lists[|lists| - 1])
  }

  /** Each list has exactly one true literal. */
  ghost predicate EachExactlyOne(lists: seq<seq<int>>, A: set<int>)
  {
    forall i :: 0 <= i < |lists| ==> ExactlyOne(lists[i], A)
  }

  /** Over lists of positive literals, the constraints hold iff each list
      has exactly one true literal. */
  lemma {:induction false} EncodeAllSemantics(enc: OneOf, lists: seq<seq<int>>, A: set<int>)
    requires forall i :: 0 <= i < |lists| ==> Positive(lists[i])
    ensures AllHold(EncodeAll(enc, lists), A) <==> EachExactlyOne(lists, A)
  {
    if lists != [] {
      var init := lists[..|lists| - 1];
      forall i | 0 <= i < |init| ensures Positive(init[i]) {
        assert init[i] == lists[i];
      }
      EncodeAllSemantics(enc, init, A);
      EncodeAllStep(enc, lists, A);
      EachExactlyOneStep(lists, A);
    }
  }

  lemma EncodeAllStep(enc: OneOf, lists: seq<seq<int>>, A: set<int>)
    requires lists != [] && Positive(lists[|lists| - 1])
    ensures AllHold(EncodeAll(enc, lists), A) <==>
      AllHold(EncodeAll(enc, lists[..|lists| - 1]), A) && ExactlyOne(lists[|lists| - 1], A)
  {
    var last := lists[|lists| - 1];
    AllHoldConcat(EncodeAll(enc, lists[..|lists| - 1]), EncodeOne(enc, last), A);
    EncodeOneSemantics(enc, last, A);
  }

  lemma EachExactlyOneStep(lists: seq<seq<int>>, A: set<int>)
    requires lists != []
    ensures EachExactlyOne(lists, A) <==>
      EachExactlyOne(lists[..|lists| - 1], A) && ExactlyOne(lists[|lists| - 1], A)
  {
    var init := lists[..|lists| - 1];
    assert forall i :: 0 <= i < |init| ==> init[i] == lists[i];
  }

  /** The exactly-one constraints of all students, student after student. */
  function ZeroAssignment(ids: map<Var, int>, n: nat, enc: OneOf, complete: bool): seq<Constraint>
    requires ZeroNumbered(ids, n)
  {
    EncodeAll(enc, ZeroLists(ids, n, complete))
  }

  /** Every student of 0..m-1 has exactly one chosen table in its list. */
  ghost predicate ListsHold(ids: map<Var, int>, A: set<int>, n: int, complete: bool)
  {
    forall i :: 0 <= i < n ==> ListChosen(ids, A, n, i, complete)
  }

  lemma ZeroAssignmentSemantics(ids: map<Var, int>, n: nat, enc: OneOf, complete: bool, A: set<int>)
    requires ZeroNumbered(ids, n)
    ensures AllHold(ZeroAssignment(ids, n, enc, complete), A) <==> ListsHold(ids, A, n, complete)
  {
    var lists := ZeroLists(ids, n, complete);
    forall i | 0 <= i < n ensures Positive(lists[i]) {
      ListIdsPositive(ids, i, n, complete);
    }
    EncodeAllSemantics(enc, lists, A);
    forall i | 0 <= i < n ensures ExactlyOne(lists[i], A) <==> ListChosen(ids, A, n, i, complete) {
      ListExactlyOne(ids, i, n, complete, A);
    }
  }

  /** One true id in the list of student i is one chosen table in it. */
  lemma ListExactlyOne(ids: map<Var, int>, i: int, n: int, complete: bool, A: set<int>)
    requires ZeroNumbered(ids, n) && 0 <= i < n
    ensures ExactlyOne(ListIds(ids, i, n, complete), A) <==> ListChosen(ids, A, n, i, complete)
  {
    TablesOfFacts(i, n, complete);
    ExactlyOneChosen(ids, n, TablesOf(i, n, complete), A);
    OneChosenInList(ids, A, i, n, complete);
  }

  // ---------------------------------------------------------------------
  // Validity clauses and the seat count

  /** y_vars: the seat-flag ids of students 0..m-1. */
  function ZeroFlagIds(ids: map<Var, int>, m: int): (r: seq<int>)
    requires forall s :: 0 <= s < m ==> Y(s) in ids
    ensures |r| == if m <= 0 then 0 else m
  {
    if m <= 0 then [] else ZeroFlagIds(ids, m - 1) + [ids[Y(m - 1)]]
  }

  /** The students of 0..m-1 whose seat flag is set. */
  function FlaggedUpTo(ids: map<Var, int>, A: set<int>, m: int): set<int>
    decreases m
  {
    if m <= 0 then {} else FlaggedUpTo(ids, A, m - 1) + (if Flag(ids, A, m - 1) then {m - 1} else {})
  }

  lemma {:induction false} FlaggedUpToMembers(ids: map<Var, int>, A: set<int>, m: int)
    ensures forall s :: s in FlaggedUpTo(ids, A, m) <==> 0 <= s < m && Flag(ids, A, s)
    decreases m
  {
    if m > 0 {
      FlaggedUpToMembers(ids, A, m - 1);
    }
  }

  lemma FlaggedStep(ids: map<Var, int>, A: set<int>, m: int)
    requires m > 0
    ensures |FlaggedUpTo(ids, A, m)| == |FlaggedUpTo(ids, A, m - 1)| + (if Flag(ids, A, m - 1) then 1 else 0)
  {
    FlaggedUpToMembers(ids, A, m - 1);
    assert m - 1 !in FlaggedUpTo(ids, A, m - 1);
  }

  /** The seat-count constraint counts the students whose flag is set. */
  lemma ZeroFlagCount(ids: map<Var, int>, m: int, A: set<int>)
    requires forall s :: 0 <= s < m ==> Y(s) in ids && ids[Y(s)] > 0
    ensures CountTrue(ZeroFlagIds(ids, m), A) == |set s | 0 <= s < m && Flag(ids, A, s)|
  {
    FlagCountUpTo0(ids, m, A);
    FlaggedUpToMembers(ids, A, m);
    assert (set s | 0 <= s < m && Flag(ids, A, s)) == FlaggedUpTo(ids, A, m);
  }

  lemma {:induction false} FlagCountUpTo0(ids: map<Var, int>, m: int, A: set<int>)
    requires forall s :: 0 <= s < m ==> Y(s) in ids && ids[Y(s)] > 0
    ensures CountTrue(ZeroFlagIds(ids, m), A) == |FlaggedUpTo(ids, A, m)|
    decreases m
  {
    if m > 0 {
      FlagCountUpTo0(ids, m - 1, A);
      var x := ids[Y(m - 1)];
      assert ZeroFlagIds(ids, m) == ZeroFlagIds(ids, m - 1) + [x];
      assert LitTrue(x, A) == Flag(ids, A, m - 1);
      CountTrueSnoc(ZeroFlagIds(ids, m - 1), x, A);
      FlaggedStep(ids, A, m);
    }
  }

  /** The candidates of order and their members' flags have positive ids. */
  lemma OrderNumbered(ids: map<Var, int>, n: int, order: seq<Table>)
    requires ZeroNumbered(ids, n) && forall t :: t in order ==> Candidate(t, n)
    ensures forall t :: t in order ==> X(t) in ids && forall s :: s in Members(t) ==> Y(s) in ids
    ensures forall t :: t in order ==> Numbered(ids, t)
  {
    forall t | t in order ensures Numbered(ids, t) {
      MembersOfInRange(t, 0, n - 1);
    }
  }

  /** The hard part of a 0-indexed script: the exactly-one constraints, the
      validity clauses of the candidates in the order the script visits
      them, and sum(y) == bound. */
  function ZeroHard(ids: map<Var, int>, n: nat, enc: OneOf, complete: bool, order: seq<Table>, bound: int): seq<Constraint>
    requires ZeroNumbered(ids, n) && forall t :: t in order ==> Candidate(t, n)
  {
    OrderNumbered(ids, n, order);
    ZeroAssignment(ids, n, enc, complete) + Clauses(ValidityClauses(ids, order))
    + [Exactly(ZeroFlagIds(ids, n), bound)]
  }

  /** An assignment satisfies the hard part iff every list has exactly one
      chosen table, every chosen table of order fits the flags, and bound
      flags are set. */
  lemma ZeroHardSemantics(ids: map<Var, int>, n: nat, enc: OneOf, complete: bool, order: seq<Table>, bound: int, A: set<int>)
    requires ZeroNumbered(ids, n) && forall t :: t in order ==> Candidate(t, n)
    ensures AllHold(ZeroHard(ids, n, enc, complete, order, bound), A) <==>
      ListsHold(ids, A, n, complete) &&
      (forall t :: t in order && Chosen(ids, A, t) ==> Fits(ids, A, t)) &&
      |set s | 0 <= s < n && Flag(ids, A, s)| == bound
  {
    OrderNumbered(ids, n, order);
    ZeroFlagCount(ids, n, A);
    var a := ZeroAssignment(ids, n, enc, complete);
    var v := Clauses(ValidityClauses(ids, order));
    var c := [Exactly(ZeroFlagIds(ids, n), bound)];
    AllHoldConcat(a + v, c, A);
    AllHoldConcat(a, v, A);
    assert AllHold(c, A) <==> Holds(c[0], A);
    ZeroAssignmentSemantics(ids, n, enc, complete, A);
    AllHoldClauses(ValidityClauses(ids, order), A);
    ValiditySemantics(ids, order, A);
  }

  /** With the corrected lists and every candidate in order, the hard part
      holds iff every student sits at exactly one chosen table, the chosen
      tables fit the flags and bound flags are set. */
  lemma CompleteHardSemantics(ids: map<Var, int>, n: nat, enc: OneOf, order: seq<Table>, bound: int, A: set<int>)
    requires ZeroNumbered(ids, n) && forall t :: t in order <==> Candidate(t, n)
    ensures AllHold(ZeroHard(ids, n, enc, true, order, bound), A) <==>
      Seated0(ids, A, n) && TablesFit0(ids, A, n) && |set s | 0 <= s < n && Flag(ids, A, s)| == bound
  {
    ZeroHardSemantics(ids, n, enc, true, order, bound, A);
    forall i | 0 <= i < n ensures ListChosen(ids, A, n, i, true) == SeatedOnce0(ids, A, n, i) {
    }
    assert (forall t :: t in order && Chosen(ids, A, t) ==> Fits(ids, A, t)) == TablesFit0(ids, A, n);
  }

  // ---------------------------------------------------------------------
  // What the lists as written let through

  /** With five students, choosing (0, 1, 2) and (2, 3, 4) and no seat flag
      satisfies every hard constraint built from the lists as written, under
      any exactly-one encoding, with the bound (5 // 7) * 4 = 0; yet
      student 2 sits at both tables. */
  lemma ListedAdmitsDoubleSeat(ids: map<Var, int>, enc: OneOf, order: seq<Table>)
    requires ZeroIds(ids, 5) && forall t :: t in order ==> Candidate(t, 5)
    ensures var A := {ids[X(Triple(0, 1, 2))], ids[X(Triple(2, 3, 4))]};
      AllHold(ZeroHard(ids, 5, enc, false, order, GroupedSeatBound(5)), A) && !SeatedOnce0(ids, A, 5, 2)
  {
    var t1, t2 := Triple(0, 1, 2), Triple(2, 3, 4);
    var A := {ids[X(t1)], ids[X(t2)]};
    assert Candidate(t1, 5) && Candidate(t2, 5);
    ChosenExactly(ids, 5, t1, t2, A);
    DoubleSeatLists(ids, A);
    DoubleSeatFits(ids, A, order);
    assert GroupedSeatBound(5) == 0;
    ZeroHardSemantics(ids, 5, enc, false, order, 0, A);
    assert InList(t1, 2, 5, true) && InList(t2, 2, 5, true);
  }

  /** Each student's list as written holds exactly one of the two triples. */
  lemma DoubleSeatLists(ids: map<Var, int>, A: set<int>)
    requires forall t :: Candidate(t, 5) ==> (Chosen(ids, A, t) <==> t == Triple(0, 1, 2) || t == Triple(2, 3, 4))
    ensures ListsHold(ids, A, 5, false)
  {
    forall i | 0 <= i < 5 ensures ListChosen(ids, A, 5, i, false) {
      var t := if i <= 1 then Triple(0, 1, 2) else Triple(2, 3, 4);
      assert InList(t, i, 5, false);
      forall u | InList(u, i, 5, false) && Chosen(ids, A, u) ensures u == t {
        assert u == Triple(0, 1, 2) || u == Triple(2, 3, 4);
      }
    }
  }

  /** The two triples fit the empty set of seat flags. */
  lemma DoubleSeatFits(ids: map<Var, int>, A: set<int>, order: seq<Table>)
    requires forall t :: Candidate(t, 5) ==> (Chosen(ids, A, t) <==> t == Triple(0, 1, 2) || t == Triple(2, 3, 4))
    requires forall s :: 0 <= s < 5 ==> !Flag(ids, A, s)
    requires forall t :: t in order ==> Candidate(t, 5)
    ensures forall t :: t in order && Chosen(ids, A, t) ==> Fits(ids, A, t)
    ensures |set s | 0 <= s < 5 && Flag(ids, A, s)| == 0
  {
    assert (set s | 0 <= s < 5 && Flag(ids, A, s)) == {};
  }

  /** When A holds the ids of exactly the two triples t1 and t2, the chosen
      candidates are t1 and t2 and no seat flag is set. */
  lemma ChosenExactly(ids: map<Var, int>, n: int, t1: Table, t2: Table, A: set<int>)
    requires ZeroIds(ids, n) && Candidate(t1, n) && Candidate(t2, n) && t1.Triple? && t2.Triple?
    requires A == {ids[X(t1)], ids[X(t2)]}
    ensures forall t :: Candidate(t, n) ==> (Chosen(ids, A, t) <==> t == t1 || t == t2)
    ensures forall s :: 0 <= s < n ==> !Flag(ids, A, s)
  {
    assert ZeroVar(X(t1), n) && ZeroVar(X(t2), n);
    forall t | Candidate(t, n) && Chosen(ids, A, t) ensures t == t1 || t == t2 {
      assert ZeroVar(X(t), n);
    }
    forall s | 0 <= s < n ensures !Flag(ids, A, s) {
      assert ZeroVar(Y(s), n);
    }
  }
}
