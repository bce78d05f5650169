/** What the hard constraints of the TCPC model say about an assignment:
    every student sits at exactly one chosen table, the seat flags agree
    with the size of that table, and the chosen tables partition the class. */
module Seating {
  import opened Tables
  import opened Cnf
  import opened Membership

  /** ids gives every variable of an n-student instance its own positive id. */
  ghost predicate IdsFor(ids: map<Var, int>, n: int)
  {
    (forall v :: ValidVar(v, n) ==> v in ids && ids[v] > 0) &&
    (forall v, w :: ValidVar(v, n) && ValidVar(w, n) && v in ids && w in ids && ids[v] == ids[w] ==> v == w)
  }

  /** The interleaved numbering of the class-based solvers hands out the
      ids 1..C(n,2)+C(n,3)+n, one per variable. */
  lemma InterleavedIds(n: nat)
    ensures IdsFor(Numbering(VarOrder(n)), n)
    ensures forall v :: v in Numbering(VarOrder(n)) ==> ValidVar(v, n)
    ensures forall v :: v in Numbering(VarOrder(n)) ==> 1 <= Numbering(VarOrder(n))[v] <= C2(n) + C3(n) + n
  {
    var s := VarOrder(n);
    VarOrderFacts(n);
    NumberingBijection(s);
    forall v | ValidVar(v, n) ensures v in Numbering(s) && Numbering(s)[v] > 0 {
      var p :| 0 <= p < |s| && s[p] == v;
    }
    NumberingOneToOne(s);
  }

  /** The variable of table t is true. */
  predicate Chosen(ids: map<Var, int>, A: set<int>, t: Table)
  {
    X(t) in ids && ids[X(t)] in A
  }

  /** Student s sits at a two-seat table. */
  predicate Flag(ids: map<Var, int>, A: set<int>, s: int)
  {
    Y(s) in ids && ids[Y(s)] in A
  }

  /** Exactly one chosen table contains student i. */
  ghost predicate SeatedOnce(ids: map<Var, int>, A: set<int>, n: int, i: int)
  {
    exists t :: WellFormed(t, n) && i in Members(t) && Chosen(ids, A, t) &&
      forall u :: WellFormed(u, n) && i in Members(u) && Chosen(ids, A, u) ==> u == t
  }

  ghost predicate Seated(ids: map<Var, int>, A: set<int>, n: int)
  {
    forall i :: 1 <= i <= n ==> SeatedOnce(ids, A, n, i)
  }

  /** Every member of a chosen pair has its seat flag set, and no member of
      a chosen triple has. */
  ghost predicate TablesFit(ids: map<Var, int>, A: set<int>, n: int)
  {
    forall t :: WellFormed(t, n) && Chosen(ids, A, t) ==> Fits(ids, A, t)
  }

  predicate Fits(ids: map<Var, int>, A: set<int>, t: Table)
  {
    forall s :: s in Members(t) ==> (Flag(ids, A, s) <==> t.Pair?)
  }

  // ---------------------------------------------------------------------
  // The membership lists

  /** The ids of the membership list of student i. */
  function MembershipIds(ids: map<Var, int>, i: int, n: int): (r: seq<int>)
    requires IdsFor(ids, n) && 1 <= i <= n
    ensures |r| == |MembershipTables(i, n)|
    ensures forall p :: 0 <= p < |r| ==> r[p] > 0
  {
    MembershipExact(i, n);
    IdsOf(ids, MembershipTables(i, n))
  }

  /** Exactly one id of the list of i is true iff exactly one chosen table
      contains i. */
  lemma MembershipSemantics(ids: map<Var, int>, i: int, n: int, A: set<int>)
    requires IdsFor(ids, n) && 1 <= i <= n
    ensures ExactlyOne(MembershipIds(ids, i, n), A) <==> SeatedOnce(ids, A, n, i)
  {
    if ExactlyOne(MembershipIds(ids, i, n), A) {
      OneIdSeats(ids, i, n, A);
    }
    if SeatedOnce(ids, A, n, i) {
      SeatedOneId(ids, i, n, A);
    }
  }

  lemma OneIdSeats(ids: map<Var, int>, i: int, n: int, A: set<int>)
    requires IdsFor(ids, n) && 1 <= i <= n
    requires ExactlyOne(MembershipIds(ids, i, n), A)
    ensures SeatedOnce(ids, A, n, i)
  {
    var ts := MembershipTables(i, n);
    var lits := MembershipIds(ids, i, n);
    MembershipExact(i, n);
    var p :| 0 <= p < |lits| && LitTrue(lits[p], A) &&
      forall q :: 0 <= q < |lits| && LitTrue(lits[q], A) ==> q == p;
    var t := ts[p];
    assert Chosen(ids, A, t);
    forall u | WellFormed(u, n) && i in Members(u) && Chosen(ids, A, u) ensures u == t {
      var q :| 0 <= q < |ts| && ts[q] == u;
      assert LitTrue(lits[q], A);
    }
  }

  lemma SeatedOneId(ids: map<Var, int>, i: int, n: int, A: set<int>)
    requires IdsFor(ids, n) && 1 <= i <= n
    requires SeatedOnce(ids, A, n, i)
    ensures ExactlyOne(MembershipIds(ids, i, n), A)
  {
    var ts := MembershipTables(i, n);
    var lits := MembershipIds(ids, i, n);
    MembershipExact(i, n);
    var t :| WellFormed(t, n) && i in Members(t) && Chosen(ids, A, t) &&
      forall u :: WellFormed(u, n) && i in Members(u) && Chosen(ids, A, u) ==> u == t;
    var p :| 0 <= p < |ts| && ts[p] == t;
    assert LitTrue(lits[p], A);
    forall q | 0 <= q < |lits| && LitTrue(lits[q], A) ensures q == p {
      assert Chosen(ids, A, ts[q]);
      assert ts[q] in ts;
      assert ts[q] == t;
    }
  }

  /** The at-least-one clause with an at-most-one cardinality constraint
      (the CardEnc.atmost encoding of the MaxSAT solvers). */
  lemma AtMostAndClauseSemantics(ids: map<Var, int>, i: int, n: int, A: set<int>)
    requires IdsFor(ids, n) && 1 <= i <= n
    ensures Holds(AtMost(MembershipIds(ids, i, n), 1), A) && Holds(Clause(MembershipIds(ids, i, n)), A)
      <==> SeatedOnce(ids, A, n, i)
  {
    var lits := MembershipIds(ids, i, n);
    CountTrueBounds(lits, A);
    ExactlyOneCount(lits, A);
    MembershipSemantics(ids, i, n, A);
  }

  /** The linear constraint sum(list) == 1 of the CP-SAT and MIP models. */
  lemma ExactlySumSemantics(ids: map<Var, int>, i: int, n: int, A: set<int>)
    requires IdsFor(ids, n) && 1 <= i <= n
    ensures Holds(Exactly(MembershipIds(ids, i, n), 1), A) <==> SeatedOnce(ids, A, n, i)
  {
    ExactlyOneCount(MembershipIds(ids, i, n), A);
    MembershipSemantics(ids, i, n, A);
  }

  /** The at-least-one clause with the pairwise clauses [-a, -b]. */
  lemma PairwiseSemantics(ids: map<Var, int>, i: int, n: int, A: set<int>)
    requires IdsFor(ids, n) && 1 <= i <= n
    ensures ClauseSat(MembershipIds(ids, i, n), A) && AllSat(AtMostOnePairwise(MembershipIds(ids, i, n)), A)
      <==> SeatedOnce(ids, A, n, i)
    ensures |AtMostOnePairwise(MembershipIds(ids, i, n))| == C2((n - 1) + C2(n - 1))
  {
    ExactlyOnePairwise(MembershipIds(ids, i, n), A);
    MembershipSemantics(ids, i, n, A);
    MembershipLength(i, n);
  }

  // ---------------------------------------------------------------------
  // Table validity

  /** The validity clauses of one table: [-x, y_s] for each member s of a
      pair, [-x, -y_s] for each member s of a triple. */
  function TableClauses(ids: map<Var, int>, t: Table): (r: seq<seq<int>>)
    requires X(t) in ids && forall s :: s in Members(t) ==> Y(s) in ids
    ensures |r| == Size(t)
  {
    var x := ids[X(t)];
    match t
    case Pair(a, b) => [[-x, ids[Y(a)]], [-x, ids[Y(b)]]]
    case Triple(a, b, c) => [[-x, -ids[Y(a)]], [-x, -ids[Y(b)]], [-x, -ids[Y(c)]]]
  }

  /** The validity clauses of the tables ts, table after table. */
  function ValidityClauses(ids: map<Var, int>, ts: seq<Table>): seq<seq<int>>
    requires forall t :: t in ts ==> X(t) in ids && forall s :: s in Members(t) ==> Y(s) in ids
  {
    if ts == [] then [] else ValidityClauses(ids, ts[..|ts| - 1]) + TableClauses(ids, ts[|ts| - 1])
  }

  /** The table and its members' seat flags have positive ids. */
  ghost predicate Numbered(ids: map<Var, int>, t: Table)
  {
    X(t) in ids && ids[X(t)] > 0 && forall s :: s in Members(t) ==> Y(s) in ids && ids[Y(s)] > 0
  }

  /** The clauses of one table hold iff the table is not chosen or its
      members' seat flags fit its size. */
  lemma TableClausesSemantics(ids: map<Var, int>, t: Table, A: set<int>)
    requires Numbered(ids, t)
    ensures AllSat(TableClauses(ids, t), A) <==> (Chosen(ids, A, t) ==> Fits(ids, A, t))
  {
    var cs := TableClauses(ids, t);
    if AllSat(cs, A) && Chosen(ids, A, t) {
      forall s | s in Members(t) ensures Flag(ids, A, s) <==> t.Pair? {
        var q := if s == t.a then 0 else if s == t.b then 1 else 2;
        assert ClauseSat(cs[q], A);
      }
    }
    if Chosen(ids, A, t) ==> Fits(ids, A, t) {
      forall q | 0 <= q < |cs| ensures ClauseSat(cs[q], A) {
        if Chosen(ids, A, t) {
          var s := if q == 0 then t.a else if q == 1 then t.b else t.c;
          assert s in Members(t);
          assert LitTrue(cs[q][1], A);
        } else {
          assert LitTrue(cs[q][0], A);
        }
      }
    }
  }

  lemma {:induction false} ValiditySemantics(ids: map<Var, int>, ts: seq<Table>, A: set<int>)
    requires forall t :: t in ts ==> X(t) in ids && forall s :: s in Members(t) ==> Y(s) in ids
    requires forall t :: t in ts ==> Numbered(ids, t)
    ensures AllSat(ValidityClauses(ids, ts), A) <==>
      forall t :: t in ts && Chosen(ids, A, t) ==> Fits(ids, A, t)
  {
    if ts != [] {
      var init, last := ts[..|ts| - 1], ts[|ts| - 1];
      assert forall t :: t in init ==> t in ts;
      ValiditySemantics(ids, init, A);
      TableClausesSemantics(ids, last, A);
      AllSatConcat(ValidityClauses(ids, init), TableClauses(ids, last), A);
      assert forall t :: t in ts ==> t in init || t == last;
    }
  }

  /** The validity clauses over all candidates hold iff the chosen tables
      fit their seat flags. */
  lemma AllValiditySemantics(ids: map<Var, int>, n: nat, A: set<int>)
    requires IdsFor(ids, n)
    ensures forall t :: t in Candidates(n) ==> X(t) in ids && forall s :: s in Members(t) ==> Y(s) in ids
    ensures AllSat(ValidityClauses(ids, Candidates(n)), A) <==> TablesFit(ids, A, n)
  {
    CandidatesHaveIds(ids, n);
    CandidatesNumbered(ids, n);
    ValiditySemantics(ids, Candidates(n), A);
    CandidatesFacts(n);
  }

  /** There are 2 validity clauses per pair and 3 per triple. */
  lemma AllValidityLength(ids: map<Var, int>, n: nat)
    requires IdsFor(ids, n)
    ensures forall t :: t in Candidates(n) ==> X(t) in ids && forall s :: s in Members(t) ==> Y(s) in ids
    ensures |ValidityClauses(ids, Candidates(n))| == 2 * C2(n) + 3 * C3(n)
  {
    var pairs, triples := PairsUpTo(1, n + 1, n + 1), TriplesUpTo(1, n + 1, n + 1);
    assert Candidates(n) == pairs + triples;
    CandidatesHaveIds(ids, n);
    CandidateKinds(n);
    PairsUpToLength(1, n + 1, n + 1);
    TriplesUpToLength(1, n + 1, n + 1);
    ValidityLength(ids, pairs, triples);
  }

  lemma CandidatesNumbered(ids: map<Var, int>, n: nat)
    requires IdsFor(ids, n)
    ensures forall t :: t in Candidates(n) ==> Numbered(ids, t)
  {
    CandidatesFacts(n);
    forall t | t in Candidates(n) ensures Numbered(ids, t) {
      assert ValidVar(X(t), n);
      MembersOfInRange(t, 1, n);
      assert forall s :: s in Members(t) ==> ValidVar(Y(s), n);
    }
  }

  lemma CandidatesHaveIds(ids: map<Var, int>, n: nat)
    requires IdsFor(ids, n)
    ensures forall t :: t in Candidates(n) ==> X(t) in ids && forall s :: s in Members(t) ==> Y(s) in ids
  {
    CandidatesFacts(n);
    forall t | t in Candidates(n) ensures X(t) in ids && forall s :: s in Members(t) ==> Y(s) in ids {
      assert ValidVar(X(t), n);
      MembersOfInRange(t, 1, n);
      assert forall s :: s in Members(t) ==> ValidVar(Y(s), n);
    }
  }

  lemma {:induction false} ValidityLength(ids: map<Var, int>, pairs: seq<Table>, triples: seq<Table>)
    requires forall t :: t in pairs + triples ==> X(t) in ids && forall s :: s in Members(t) ==> Y(s) in ids
    requires forall t :: t in pairs ==> t.Pair?
    requires forall t :: t in triples ==> t.Triple?
    ensures |ValidityClauses(ids, pairs + triples)| == 2 * |pairs| + 3 * |triples|
    decreases |pairs| + |triples|
  {
    var ts := pairs + triples;
    if ts != [] {
      if triples != [] {
        assert ts[..|ts| - 1] == pairs + triples[..|triples| - 1];
        assert ts[|ts| - 1] == triples[|triples| - 1];
        assert triples[|triples| - 1] in triples;
        ValidityLength(ids, pairs, triples[..|triples| - 1]);
      } else {
        assert ts == pairs;
        assert ts[..|ts| - 1] == pairs[..|pairs| - 1] + [];
        assert pairs[|pairs| - 1] in pairs;
        ValidityLength(ids, pairs[..|pairs| - 1], []);
      }
    }
  }

  // ---------------------------------------------------------------------
  // The seat flags

  /** list(y_vars.values()): the seat-flag ids of students 1..m. */
  function FlagIds(ids: map<Var, int>, m: int): (r: seq<int>)
    requires forall s :: 1 <= s <= m ==> Y(s) in ids
    ensures |r| == if m <= 0 then 0 else m
    ensures forall p :: 0 <= p < |r| ==> r[p] == ids[Y(p + 1)]
  {
    if m <= 0 then [] else FlagIds(ids, m - 1) + [ids[Y(m)]]
  }

  /** The seat-count constraint counts the students whose seat flag is set. */
  lemma FlagCount(ids: map<Var, int>, n: int, A: set<int>)
    requires IdsFor(ids, n)
    ensures forall s :: 1 <= s <= n ==> Y(s) in ids
    ensures CountTrue(FlagIds(ids, n), A) == |set s | 1 <= s <= n && Flag(ids, A, s)|
  {
    forall s | 1 <= s <= n ensures Y(s) in ids && ids[Y(s)] > 0 {
      assert ValidVar(Y(s), n);
    }
    FlagCountUpTo(ids, n, A);
  }

  lemma {:induction false} FlagCountUpTo(ids: map<Var, int>, m: int, A: set<int>)
    requires forall s :: 1 <= s <= m ==> Y(s) in ids && ids[Y(s)] > 0
    ensures CountTrue(FlagIds(ids, m), A) == |set s | 1 <= s <= m && Flag(ids, A, s)|
    decreases m
  {
    if m <= 0 {
      assert (set s | 1 <= s <= m && Flag(ids, A, s)) == {};
    } else {
      FlagCountUpTo(ids, m - 1, A);
      FlagIdsStep(ids, m, A);
      FlagSetStep(ids, m, A);
    }
  }

  lemma FlagIdsStep(ids: map<Var, int>, m: int, A: set<int>)
    requires forall s :: 1 <= s <= m ==> Y(s) in ids && ids[Y(s)] > 0
    requires m > 0
    ensures CountTrue(FlagIds(ids, m), A) == CountTrue(FlagIds(ids, m - 1), A) + (if Flag(ids, A, m) then 1 else 0)
  {
    var lits := FlagIds(ids, m);
    assert lits == FlagIds(ids, m - 1) + [ids[Y(m)]];
    assert lits[..|lits| - 1] == FlagIds(ids, m - 1);
  }

  lemma FlagSetStep(ids: map<Var, int>, m: int, A: set<int>)
    requires m > 0
    ensures |set s | 1 <= s <= m && Flag(ids, A, s)| == |set s | 1 <= s <= m - 1 && Flag(ids, A, s)| + (if Flag(ids, A, m) then 1 else 0)
  {
    var before := set s | 1 <= s <= m - 1 && Flag(ids, A, s);
    var after := set s | 1 <= s <= m && Flag(ids, A, s);
    if Flag(ids, A, m) {
      assert after == before + {m};
    } else {
      assert after == before;
    }
  }

  // ---------------------------------------------------------------------
  // Chosen tables partition the class

  /** Student s sits at some chosen table. */
  ghost predicate AtSomeTable(ids: map<Var, int>, A: set<int>, n: int, s: int)
  {
    exists t :: WellFormed(t, n) && Chosen(ids, A, t) && s in Members(t)
  }

  /** When every student sits at exactly one chosen table, two different
      chosen tables share no student and every student is at one of them. */
  lemma SeatingPartition(ids: map<Var, int>, A: set<int>, n: int)
    requires Seated(ids, A, n)
    ensures forall t, u ::
      (WellFormed(t, n) && WellFormed(u, n) && Chosen(ids, A, t) && Chosen(ids, A, u) && t != u) ==> Members(t) !! Members(u)
    ensures forall s :: 1 <= s <= n ==> AtSomeTable(ids, A, n, s)
  {
    forall t, u | WellFormed(t, n) && WellFormed(u, n) && Chosen(ids, A, t) && Chosen(ids, A, u) && t != u
      ensures Members(t) !! Members(u)
    {
      forall s | s in Members(t) ensures s !in Members(u) {
        MembersOfInRange(t, 1, n);
        assert SeatedOnce(ids, A, n, s);
        var w :| WellFormed(w, n) && s in Members(w) && Chosen(ids, A, w) &&
          forall v :: WellFormed(v, n) && s in Members(v) && Chosen(ids, A, v) ==> v == w;
        assert t == w;
      }
    }
    forall s | 1 <= s <= n ensures AtSomeTable(ids, A, n, s) {
      assert SeatedOnce(ids, A, n, s);
    }
  }
}
