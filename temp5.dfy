/** temp5.py: the class TCPCModel, which names its variables by strings
    and hands out ids lazily, in the order the model-building loops first
    ask for them; and build_graph, which copies the preference lists into a
    graph. Variable names are modelled as Var: the strings x_i_j, x_i_j_k
    and y_i name one variable each. */
module Temp5 {
  import opened Tables
  import opened Cnf
  import opened Weights
  import opened Membership
  import opened Seating
  import opened Encoding
  import opened Decoding
  import opened Builders
  import opened ZeroIndexed
  import opened ZeroScripts

  // ---------------------------------------------------------------------
  // Growing name tables

  /** big keeps every name of small, with the same id. */
  ghost predicate Extends(big: map<Var, int>, small: map<Var, int>)
  {
    forall v :: v in small ==> v in big && big[v] == small[v]
  }

  lemma IdsOfExtend(small: map<Var, int>, big: map<Var, int>, ts: seq<Table>)
    requires Extends(big, small) && forall t :: t in ts ==> X(t) in small
    ensures IdsOf(big, ts) == IdsOf(small, ts)
  {
  }

  lemma ValidityClausesExtend(small: map<Var, int>, big: map<Var, int>, ts: seq<Table>)
    requires Extends(big, small)
    requires forall t :: t in ts ==> X(t) in small && forall s :: s in Members(t) ==> Y(s) in small
    ensures forall t :: t in ts ==> X(t) in big && forall s :: s in Members(t) ==> Y(s) in big
    ensures ValidityClauses(big, ts) == ValidityClauses(small, ts)
  {
    if ts != [] {
      var init, last := ts[..|ts| - 1], ts[|ts| - 1];
      assert forall t :: t in init ==> t in ts;
      ValidityClausesExtend(small, big, init);
      TableClausesExtend(small, big, last);
    }
  }

  lemma TableClausesExtend(small: map<Var, int>, big: map<Var, int>, t: Table)
    requires Extends(big, small)
    requires X(t) in small && forall s :: s in Members(t) ==> Y(s) in small
    ensures X(t) in big && forall s :: s in Members(t) ==> Y(s) in big
    ensures TableClauses(big, t) == TableClauses(small, t)
  {
    assert big[X(t)] == small[X(t)];
    match t
    case Pair(a, b) =>
      assert a in Members(t) && b in Members(t);
    case Triple(a, b, c) =>
      assert a in Members(t) && b in Members(t) && c in Members(t);
  }

  lemma PositiveSoftExtend(small: map<Var, int>, big: map<Var, int>, w: map<Table, int>, ts: seq<Table>)
    requires Extends(big, small) && Keyed(small, w, ts)
    ensures Keyed(big, w, ts)
    ensures PositiveSoft(big, w, ts) == PositiveSoft(small, w, ts)
  {
    if ts != [] {
      assert forall t :: t in ts[..|ts| - 1] ==> t in ts;
      PositiveSoftExtend(small, big, w, ts[..|ts| - 1]);
    }
  }

  lemma FlagIdsExtend(small: map<Var, int>, big: map<Var, int>, m: int)
    requires Extends(big, small) && forall s :: 0 <= s < m ==> Y(s) in small
    ensures forall s :: 0 <= s < m ==> Y(s) in big
    ensures ZeroFlagIds(big, m) == ZeroFlagIds(small, m)
  {
    if m > 0 {
      FlagIdsExtend(small, big, m - 1);
    }
  }

  // ---------------------------------------------------------------------
  // The lists without their at-least-one clause

  /** The list of student i holds candidates whose least member is at most
      i, and every candidate whose least member is i. */
  lemma ListedLead(i: int, n: int)
    requires 0 <= i < n
    ensures forall t :: t in ListedTables(i, n) ==> Candidate(t, n) && t.a <= i
    ensures forall t :: Candidate(t, n) && t.a == i ==> t in ListedTables(i, n)
  {
    ListedExact(i, n);
  }

  lemma ListedKnown(ids: map<Var, int>, n: int, i: int)
    requires 0 <= i < n && forall t :: Candidate(t, n) && t.a <= i ==> X(t) in ids
    ensures forall t :: t in ListedTables(i, n) ==> X(t) in ids
  {
    ListedLead(i, n);
  }

  /** The exclusions [-a, -b] of the list of student i. */
  function ListExclusion(ids: map<Var, int>, n: int, i: int): seq<Constraint>
    requires 0 <= i < n && forall t :: Candidate(t, n) && t.a <= i ==> X(t) in ids
  {
    ListedKnown(ids, n, i);
    Clauses(AtMostOnePairwise(IdsOf(ids, ListedTables(i, n))))
  }

  /** The exclusions of the lists of students 0..m-1, list after list. */
  function PairwiseLists(ids: map<Var, int>, n: int, m: int): seq<Constraint>
    requires m <= n && forall t :: Candidate(t, n) && t.a < m ==> X(t) in ids
    decreases m
  {
    if m <= 0 then [] else PairwiseLists(ids, n, m - 1) + ListExclusion(ids, n, m - 1)
  }

  lemma {:induction false} PairwiseListsExtend(small: map<Var, int>, big: map<Var, int>, n: int, m: int)
    requires Extends(big, small)
    requires m <= n && forall t :: Candidate(t, n) && t.a < m ==> X(t) in small
    ensures forall t :: Candidate(t, n) && t.a < m ==> X(t) in big
    ensures PairwiseLists(big, n, m) == PairwiseLists(small, n, m)
    decreases m
  {
    if m > 0 {
      PairwiseListsExtend(small, big, n, m - 1);
      ListedKnown(small, n, m - 1);
      IdsOfExtend(small, big, ListedTables(m - 1, n));
      assert ListExclusion(big, n, m - 1) == ListExclusion(small, n, m - 1);
    }
  }

  /** At most one chosen table is in the list of student i. */
  ghost predicate ListAtMostOne(ids: map<Var, int>, A: set<int>, n: int, i: int)
  {
    forall t, u :: InList(t, i, n, false) && InList(u, i, n, false) && Chosen(ids, A, t) && Chosen(ids, A, u) ==> t == u
  }

  /** At most one chosen table is in each list of students 0..m-1. */
  ghost predicate ListsAtMostOne(ids: map<Var, int>, A: set<int>, n: int, m: int)
    decreases m
  {
    m <= 0 || (ListsAtMostOne(ids, A, n, m - 1) && ListAtMostOne(ids, A, n, m - 1))
  }

  lemma {:induction false} ListsAtMostOneEach(ids: map<Var, int>, A: set<int>, n: int, m: int)
    ensures ListsAtMostOne(ids, A, n, m) <==> forall i :: 0 <= i < m ==> ListAtMostOne(ids, A, n, i)
    decreases m
  {
    if m > 0 {
      ListsAtMostOneEach(ids, A, n, m - 1);
      if ListsAtMostOne(ids, A, n, m) {
        forall i | 0 <= i < m ensures ListAtMostOne(ids, A, n, i) {
        }
      }
    }
  }

  /** Over a list of distinct tables, no two true ids is no two chosen
      tables. */
  lemma AtMostOneChosen(ids: map<Var, int>, ts: seq<Table>, A: set<int>)
    requires Distinct(ts) && forall t :: t in ts ==> X(t) in ids && ids[X(t)] > 0
    ensures AllSat(AtMostOnePairwise(IdsOf(ids, ts)), A) <==>
      forall t, u :: t in ts && u in ts && Chosen(ids, A, t) && Chosen(ids, A, u) ==> t == u
  {
    var lits := IdsOf(ids, ts);
    assert forall p :: 0 <= p < |lits| ==> lits[p] > 0 by {
      forall p | 0 <= p < |lits| ensures lits[p] > 0 {
        assert ts[p] in ts;
      }
    }
    PairwiseFacts(lits, |lits|, A);
    if NoTwoTrue(lits, A, |lits|) {
      forall t, u | t in ts && u in ts && Chosen(ids, A, t) && Chosen(ids, A, u) ensures t == u {
        var p :| 0 <= p < |ts| && ts[p] == t;
        var q :| 0 <= q < |ts| && ts[q] == u;
        if p != q {
          NotBothTrue(lits, A, p, q);
        }
      }
    } else {
      var p, q :| 0 <= p < |lits| && p < q < |lits| && lits[p] in A && lits[q] in A;
      assert Chosen(ids, A, ts[p]) && Chosen(ids, A, ts[q]) && ts[p] != ts[q];
      assert ts[p] in ts && ts[q] in ts;
    }
  }

  /** The exclusions of the list of student i hold iff at most one chosen
      table is in it. */
  lemma ListExclusions(ids: map<Var, int>, A: set<int>, n: int, i: int)
    requires ZeroNumbered(ids, n) && 0 <= i < n
    ensures AllHold(ListExclusion(ids, n, i), A) <==> ListAtMostOne(ids, A, n, i)
  {
    ListedExact(i, n);
    var ts := ListedTables(i, n);
    AllHoldClauses(AtMostOnePairwise(IdsOf(ids, ts)), A);
    AtMostOneChosen(ids, ts, A);
  }

  lemma {:induction false} PairwiseListsSemantics(ids: map<Var, int>, A: set<int>, n: int, m: int)
    requires ZeroNumbered(ids, n) && m <= n
    ensures forall t :: Candidate(t, n) && t.a < m ==> X(t) in ids
    ensures AllHold(PairwiseLists(ids, n, m), A) <==> ListsAtMostOne(ids, A, n, m)
    decreases m
  {
    if m > 0 {
      PairwiseListsSemantics(ids, A, n, m - 1);
      PairwiseListsStep(ids, A, n, m);
    }
  }

  lemma PairwiseListsStep(ids: map<Var, int>, A: set<int>, n: int, m: int)
    requires ZeroNumbered(ids, n) && 0 < m <= n
    requires AllHold(PairwiseLists(ids, n, m - 1), A) <==> ListsAtMostOne(ids, A, n, m - 1)
    ensures AllHold(PairwiseLists(ids, n, m), A) <==> ListsAtMostOne(ids, A, n, m)
  {
    ListExclusions(ids, A, n, m - 1);
    AllHoldConcat(PairwiseLists(ids, n, m - 1), ListExclusion(ids, n, m - 1), A);
  }

  // ---------------------------------------------------------------------
  // The hard part of build_model

  /** The exclusions of every list, the validity clauses of the pairs and
      then the triples, and sum(y) == (N // 7) * 4. */
  function Temp5Hard(ids: map<Var, int>, n: nat): seq<Constraint>
    requires ZeroNumbered(ids, n)
  {
    ZeroCandidatesFacts(n);
    OrderNumbered(ids, n, ZeroCandidates(n));
    PairwiseLists(ids, n, n) + Clauses(ValidityClauses(ids, ZeroCandidates(n)))
    + [Exactly(ZeroFlagIds(ids, n), GroupedSeatBound(n))]
  }

  /** The hard part holds iff no list has two chosen tables, every chosen
      table fits the seat flags, and (N // 7) * 4 flags are set: nothing
      asks a list for a chosen table. */
  lemma Temp5HardSemantics(ids: map<Var, int>, n: nat, A: set<int>)
    requires ZeroNumbered(ids, n)
    ensures AllHold(Temp5Hard(ids, n), A) <==>
      (forall i :: 0 <= i < n ==> ListAtMostOne(ids, A, n, i)) && TablesFit0(ids, A, n) &&
      |set s | 0 <= s < n && Flag(ids, A, s)| == GroupedSeatBound(n)
  {
    var ts := ZeroCandidates(n);
    ZeroCandidatesFacts(n);
    OrderNumbered(ids, n, ts);
    var lists, v, c := PairwiseLists(ids, n, n), Clauses(ValidityClauses(ids, ts)), [Exactly(ZeroFlagIds(ids, n), GroupedSeatBound(n))];
    AllHoldConcat(lists + v, c, A);
    AllHoldConcat(lists, v, A);
    assert AllHold(c, A) <==> Holds(c[0], A);
    PairwiseListsSemantics(ids, A, n, n);
    ListsAtMostOneEach(ids, A, n, n);
    AllHoldClauses(ValidityClauses(ids, ts), A);
    ValiditySemantics(ids, ts, A);
    ZeroFlagCount(ids, n, A);
  }

  /** The numbers 0..k-1. */
  function Below(k: int): set<int>
    decreases k
  {
    if k <= 0 then {} else Below(k - 1) + {k - 1}
  }

  lemma {:induction false} BelowFacts(k: nat)
    ensures forall s :: s in Below(k) <==> 0 <= s < k
    ensures |Below(k)| == k
  {
    if k > 0 {
      BelowFacts(k - 1);
    }
  }

  /** The ids of the seat flags of students 0..k-1. */
  function FirstFlags(ids: map<Var, int>, k: int): set<int>
    requires forall s :: 0 <= s < k ==> Y(s) in ids
  {
    set s | 0 <= s < k :: ids[Y(s)]
  }

  /** With the seat flags of students 0..(N // 7) * 4 - 1 set and no table
      chosen, every hard constraint of build_model holds, yet student 0
      sits nowhere. */
  lemma Temp5AdmitsNoTable(ids: map<Var, int>, n: nat)
    requires n >= 1 && ZeroIds(ids, n)
    ensures GroupedSeatBound(n) <= n
    ensures var A := FirstFlags(ids, GroupedSeatBound(n));
      AllHold(Temp5Hard(ids, n), A) && !SeatedOnce0(ids, A, n, 0)
  {
    var k := GroupedSeatBound(n);
    var A := FirstFlags(ids, k);
    forall t | Candidate(t, n) ensures !Chosen(ids, A, t) {
      assert ZeroVar(X(t), n);
      forall s | 0 <= s < k ensures ids[Y(s)] != ids[X(t)] {
        assert ZeroVar(Y(s), n);
      }
    }
    forall s | 0 <= s < n ensures Flag(ids, A, s) <==> s < k {
      assert ZeroVar(Y(s), n);
      if ids[Y(s)] in A {
        var s' :| 0 <= s' < k && ids[Y(s')] == ids[Y(s)];
        assert ZeroVar(Y(s'), n);
      }
    }
    BelowFacts(k);
    assert (set s | 0 <= s < n && Flag(ids, A, s)) == Below(k);
    Temp5HardSemantics(ids, n, A);
  }

  // ---------------------------------------------------------------------
  // TCPCModel

  /** var_map and inverse_var_map are inverse bijections between the names
      handed out so far and the ids 1..next-1. */
  ghost predicate Allocated(m: map<Var, int>, inv: map<int, Var>, next: int)
  {
    next >= 1 &&
    (forall v :: v in m ==> 1 <= m[v] < next && m[v] in inv && inv[m[v]] == v) &&
    (forall x :: x in inv <==> 1 <= x < next) &&
    (forall x :: x in inv ==> inv[x] in m && m[inv[x]] == x)
  }

  /** No two names share an id. */
  lemma AllocatedInjective(m: map<Var, int>, inv: map<int, Var>, next: int)
    requires Allocated(m, inv, next)
    ensures forall v, w :: v in m && w in m && m[v] == m[w] ==> v == w
  {
    forall v, w | v in m && w in m && m[v] == m[w] ensures v == w {
      assert inv[m[v]] == v && inv[m[w]] == w;
    }
  }

  /** Once build_model has named every variable of the instance, the names
      carry distinct positive ids. */
  lemma AllocatedZeroIds(m: map<Var, int>, inv: map<int, Var>, next: int, n: nat)
    requires Allocated(m, inv, next) && forall v :: ZeroVar(v, n) ==> v in m
    ensures ZeroIds(m, n)
  {
    AllocatedInjective(m, inv, next);
    assert forall t :: Candidate(t, n) ==> ZeroVar(X(t), n);
    assert forall s :: 0 <= s < n ==> ZeroVar(Y(s), n);
  }

  /** One get_var call of AllocateTables. */
  lemma AllocateStep(before: map<Var, int>, after: map<Var, int>, ts: seq<Table>, p: int, clauses: seq<int>, id: int)
    requires 0 <= p < |ts| && Extends(after, before)
    requires forall t :: t in ts[..p] ==> X(t) in before
    requires clauses == IdsOf(before, ts[..p])
    requires forall v :: v in after <==> v in before || v == X(ts[p])
    requires X(ts[p]) in after && id == after[X(ts[p])]
    ensures forall t :: t in ts[..p + 1] ==> X(t) in after
    ensures clauses + [id] == IdsOf(after, ts[..p + 1])
    ensures forall v :: v in after <==> v in before || (v.X? && v.t == ts[p])
  {
    assert ts[..p + 1] == ts[..p] + [ts[p]];
    IdsOfExtend(before, after, ts[..p]);
  }

  /** One step of the list loop of build_model: the tables of list i are
      named, which names every candidate led by a student up to i. */
  lemma PairwiseListsGrow(base: map<Var, int>, before: map<Var, int>, after: map<Var, int>, n: int, i: int)
    requires 0 <= i < n && Extends(after, before)
    requires forall v :: v in before <==> v in base || (v.X? && Candidate(v.t, n) && v.t.a < i)
    requires forall v :: v in after <==> v in before || (v.X? && v.t in ListedTables(i, n))
    ensures forall v :: v in after <==> v in base || (v.X? && Candidate(v.t, n) && v.t.a < i + 1)
    ensures forall t :: t in ListedTables(i, n) ==> X(t) in after
    ensures PairwiseLists(after, n, i + 1) ==
      PairwiseLists(before, n, i) + Clauses(AtMostOnePairwise(IdsOf(after, ListedTables(i, n))))
  {
    ListedLead(i, n);
    PairwiseListsExtend(before, after, n, i);
  }

  lemma ExtendsTrans(m0: map<Var, int>, m1: map<Var, int>, m2: map<Var, int>, n: int)
    requires Extends(m1, m0) && Extends(m2, m1)
    requires forall v :: v in m1 ==> v in m0 || ZeroVar(v, n)
    requires forall v :: v in m2 ==> v in m1 || ZeroVar(v, n)
    ensures Extends(m2, m0)
    ensures forall v :: v in m2 ==> v in m0 || ZeroVar(v, n)
  {
  }

  /** One step of a validity loop: the clauses so far keep their ids. */
  lemma ValidityGrow(before: map<Var, int>, after: map<Var, int>, all: seq<Table>, p: int)
    requires 0 <= p < |all| && Extends(after, before)
    requires forall t :: t in all[..p] ==> X(t) in before && forall s :: s in Members(t) ==> Y(s) in before
    requires X(all[p]) in after && forall s :: s in Members(all[p]) ==> Y(s) in after
    ensures forall t :: t in all[..p + 1] ==> X(t) in after && forall s :: s in Members(t) ==> Y(s) in after
    ensures ValidityClauses(after, all[..p + 1]) == ValidityClauses(before, all[..p]) + TableClauses(after, all[p])
  {
    assert all[..p + 1][..p] == all[..p];
    ValidityClausesExtend(before, after, all[..p]);
  }

  /** The state after the list loop of build_model has run for students
      0..i-1 from the names m0 and the clauses h0: exactly the candidates
      led by those students are newly named, and their exclusions are
      appended. */
  ghost predicate ListsDone(m0: map<Var, int>, m: map<Var, int>, n: int, i: int, h0: seq<Constraint>, h: seq<Constraint>)
  {
    0 <= i <= n && Extends(m, m0) &&
    (forall v :: v in m <==> v in m0 || (v.X? && Candidate(v.t, n) && v.t.a < i)) &&
    h == h0 + PairwiseLists(m, n, i)
  }

  lemma ListsDoneStep(m0: map<Var, int>, before: map<Var, int>, after: map<Var, int>, n: int, i: int,
                      h0: seq<Constraint>, h: seq<Constraint>, cs: seq<seq<int>>)
    requires ListsDone(m0, before, n, i, h0, h) && i < n
    requires Extends(after, before)
    requires forall v :: v in after <==> v in before || (v.X? && v.t in ListedTables(i, n))
    requires forall t :: t in ListedTables(i, n) ==> X(t) in after
    requires cs == AtMostOnePairwise(IdsOf(after, ListedTables(i, n)))
    ensures ListsDone(m0, after, n, i + 1, h0, h + Clauses(cs))
  {
    ExtendsChain(m0, before, after);
    ListsDomainStep(m0, before, after, n, i, h0, h, cs);
    ListsHardStep(m0, before, after, n, i, h0, h, cs);
    ListsDoneIntro(m0, after, n, i + 1, h0, h + Clauses(cs));
  }

  lemma ListsDomainStep(m0: map<Var, int>, before: map<Var, int>, after: map<Var, int>, n: int, i: int,
                        h0: seq<Constraint>, h: seq<Constraint>, cs: seq<seq<int>>)
    requires ListsDone(m0, before, n, i, h0, h) && i < n
    requires Extends(after, before)
    requires forall v :: v in after <==> v in before || (v.X? && v.t in ListedTables(i, n))
    ensures forall v :: v in after <==> v in m0 || (v.X? && Candidate(v.t, n) && v.t.a < i + 1)
  {
    PairwiseListsGrow(m0, before, after, n, i);
  }

  lemma ListsHardStep(m0: map<Var, int>, before: map<Var, int>, after: map<Var, int>, n: int, i: int,
                      h0: seq<Constraint>, h: seq<Constraint>, cs: seq<seq<int>>)
    requires ListsDone(m0, before, n, i, h0, h) && i < n
    requires Extends(after, before)
    requires forall v :: v in after <==> v in before || (v.X? && v.t in ListedTables(i, n))
    requires forall t :: t in ListedTables(i, n) ==> X(t) in after
    requires cs == AtMostOnePairwise(IdsOf(after, ListedTables(i, n)))
    ensures forall t :: Candidate(t, n) && t.a < i + 1 ==> X(t) in after
    ensures h + Clauses(cs) == h0 + PairwiseLists(after, n, i + 1)
  {
    PairwiseListsGrow(m0, before, after, n, i);
    Append3(h0, PairwiseLists(before, n, i), Clauses(cs));
  }

  lemma ListsDoneIntro(m0: map<Var, int>, m: map<Var, int>, n: int, i: int, h0: seq<Constraint>, h: seq<Constraint>)
    requires 0 <= i <= n && Extends(m, m0)
    requires forall v :: v in m <==> v in m0 || (v.X? && Candidate(v.t, n) && v.t.a < i)
    requires forall t :: Candidate(t, n) && t.a < i ==> X(t) in m
    requires h == h0 + PairwiseLists(m, n, i)
    ensures ListsDone(m0, m, n, i, h0, h)
  {
  }

  lemma Append3<T>(a: seq<T>, b: seq<T>, c: seq<T>)
    ensures (a + b) + c == a + (b + c)
  {
  }

  lemma ExtendsChain(m0: map<Var, int>, m1: map<Var, int>, m2: map<Var, int>)
    requires Extends(m1, m0) && Extends(m2, m1)
    ensures Extends(m2, m0)
  {
  }

  /** The state after a validity loop of build_model has run over all[..p]
      from the names m0: only variables of the instance are newly named,
      every table of all[..p] and its members' flags are named, and the
      clauses appended to base are the validity clauses of all[..p]. */
  ghost predicate ValidityDone(m0: map<Var, int>, m: map<Var, int>, n: int, all: seq<Table>, p: int,
                               base: seq<Constraint>, h: seq<Constraint>)
  {
    0 <= p <= |all| && Extends(m, m0) && (forall v :: v in m ==> v in m0 || ZeroVar(v, n)) &&
    (forall t :: t in all[..p] ==> X(t) in m && forall s :: s in Members(t) ==> Y(s) in m) &&
    h == base + Clauses(ValidityClauses(m, all[..p]))
  }

  lemma ValidityDoneStep(m0: map<Var, int>, before: map<Var, int>, after: map<Var, int>, n: int,
                         all: seq<Table>, p: int, base: seq<Constraint>, h: seq<Constraint>, h': seq<Constraint>)
    requires ValidityDone(m0, before, n, all, p, base, h) && p < |all|
    requires Extends(after, before) && forall v :: v in after ==> v in before || ZeroVar(v, n)
    requires X(all[p]) in after && forall s :: s in Members(all[p]) ==> Y(s) in after
    requires h' == h + Clauses(TableClauses(after, all[p]))
    ensures ValidityDone(m0, after, n, all, p + 1, base, h')
  {
    ExtendsTrans(m0, before, after, n);
    ValidityHardStep(m0, before, after, n, all, p, base, h, h');
    ValidityDoneIntro(m0, after, n, all, p + 1, base, h');
  }

  lemma ValidityHardStep(m0: map<Var, int>, before: map<Var, int>, after: map<Var, int>, n: int,
                         all: seq<Table>, p: int, base: seq<Constraint>, h: seq<Constraint>, h': seq<Constraint>)
    requires ValidityDone(m0, before, n, all, p, base, h) && p < |all|
    requires Extends(after, before)
    requires X(all[p]) in after && forall s :: s in Members(all[p]) ==> Y(s) in after
    requires h' == h + Clauses(TableClauses(after, all[p]))
    ensures forall t :: t in all[..p + 1] ==> X(t) in after && forall s :: s in Members(t) ==> Y(s) in after
    ensures h' == base + Clauses(ValidityClauses(after, all[..p + 1]))
  {
    ValidityGrow(before, after, all, p);
    var done, last := Clauses(ValidityClauses(before, all[..p])), Clauses(TableClauses(after, all[p]));
    ClausesConcat(ValidityClauses(before, all[..p]), TableClauses(after, all[p]));
    Append3(base, done, last);
  }

  lemma ValidityDoneIntro(m0: map<Var, int>, m: map<Var, int>, n: int, all: seq<Table>, p: int,
                          base: seq<Constraint>, h: seq<Constraint>)
    requires 0 <= p <= |all| && Extends(m, m0) && (forall v :: v in m ==> v in m0 || ZeroVar(v, n))
    requires forall t :: t in all[..p] ==> X(t) in m && forall s :: s in Members(t) ==> Y(s) in m
    requires h == base + Clauses(ValidityClauses(m, all[..p]))
    ensures ValidityDone(m0, m, n, all, p, base, h)
  {
  }

  /** Naming v with id keeps every earlier name and its id. */
  ghost predicate NamedAs(before: map<Var, int>, after: map<Var, int>, v: Var, id: int)
  {
    after == before[v := id] && (v in before ==> before[v] == id)
  }

  /** The get_var calls of one pair of the validity loop. */
  lemma PairNamed(m0: map<Var, int>, m1: map<Var, int>, m2: map<Var, int>, m3: map<Var, int>,
                  t: Table, x: int, yi: int, yj: int, n: int)
    requires t.Pair? && Candidate(t, n)
    requires NamedAs(m0, m1, X(t), x) && NamedAs(m1, m2, Y(t.a), yi) && NamedAs(m2, m3, Y(t.b), yj)
    ensures Extends(m3, m0) && forall v :: v in m3 ==> v in m0 || ZeroVar(v, n)
    ensures X(t) in m3 && forall s :: s in Members(t) ==> Y(s) in m3
    ensures TableClauses(m3, t) == [[-x, yi], [-x, yj]]
  {
  }

  /** The get_var calls of one triple of the validity loop. */
  lemma TripleNamed(m0: map<Var, int>, m1: map<Var, int>, m2: map<Var, int>, m3: map<Var, int>, m4: map<Var, int>,
                    t: Table, x: int, yi: int, yj: int, yk: int, n: int)
    requires t.Triple? && Candidate(t, n)
    requires NamedAs(m0, m1, X(t), x) && NamedAs(m1, m2, Y(t.a), yi) && NamedAs(m2, m3, Y(t.b), yj)
    requires NamedAs(m3, m4, Y(t.c), yk)
    ensures Extends(m4, m0) && forall v :: v in m4 ==> v in m0 || ZeroVar(v, n)
    ensures X(t) in m4 && forall s :: s in Members(t) ==> Y(s) in m4
    ensures TableClauses(m4, t) == [[-x, -yi], [-x, -yj], [-x, -yk]]
  {
  }

  /** Two add_hard_constraint calls append the clauses of [a, b]. */
  lemma AppendTwo(h0: seq<Constraint>, h1: seq<Constraint>, h2: seq<Constraint>, a: seq<int>, b: seq<int>)
    requires h1 == h0 + [Clause(a)] && h2 == h1 + [Clause(b)]
    ensures h2 == h0 + Clauses([a, b])
  {
    assert Clauses([a, b]) == [Clause(a), Clause(b)];
  }

  /** Three add_hard_constraint calls append the clauses of [a, b, c]. */
  lemma AppendThree(h0: seq<Constraint>, h1: seq<Constraint>, h2: seq<Constraint>, h3: seq<Constraint>,
                    a: seq<int>, b: seq<int>, c: seq<int>)
    requires h1 == h0 + [Clause(a)] && h2 == h1 + [Clause(b)] && h3 == h2 + [Clause(c)]
    ensures h3 == h0 + Clauses([a, b, c])
  {
    assert [a, b, c][..2] == [a, b];
    assert Clauses([a, b, c]) == [Clause(a), Clause(b), Clause(c)];
  }

  /** Asking get_var again for a name it has handed out changes nothing. */
  lemma NamedAgain(m: map<Var, int>, inv: map<int, Var>, next: int, v: Var)
    requires Allocated(m, inv, next) && v in m
    ensures m[v := m[v]] == m && inv[m[v] := v] == inv
  {
  }

  lemma ZeroWeightOf(prefs: Prefs, n: nat, t: Table)
    requires Candidate(t, n)
    ensures t in ZeroWeights(prefs, n) && ZeroWeights(prefs, n)[t] == SetWeight(prefs, t)
  {
  }

  /** One get_var call of the y_vars loop of build_model. */
  lemma FlagStep(m0: map<Var, int>, before: map<Var, int>, after: map<Var, int>, i: nat, ys: seq<int>, id: int)
    requires Extends(before, m0) && NamedAs(before, after, Y(i), id)
    requires forall v :: v in before <==> v in m0 || (v.Y? && 0 <= v.s < i)
    requires ys == ZeroFlagIds(before, i)
    ensures Extends(after, m0)
    ensures forall v :: v in after <==> v in m0 || (v.Y? && 0 <= v.s < i + 1)
    ensures ys + [id] == ZeroFlagIds(after, i + 1)
  {
    FlagIdsExtend(before, after, i);
  }

  /** The state after a soft loop of build_model has run over all[..p]:
      [x] with its weight is appended to base for every table of all[..p]
      of positive weight, in order. */
  ghost predicate SoftDone(m: map<Var, int>, w: map<Table, int>, all: seq<Table>, p: int,
                           base: seq<Soft>, s: seq<Soft>)
  {
    0 <= p <= |all| && Keyed(m, w, all) && Keyed(m, w, all[..p]) &&
    s == base + PositiveSoft(m, w, all[..p])
  }

  lemma SoftDoneStart(m: map<Var, int>, w: map<Table, int>, all: seq<Table>)
    requires Keyed(m, w, all)
    ensures SoftDone(m, w, all, 0, [], [])
  {
  }

  lemma SoftDoneStep(m: map<Var, int>, w: map<Table, int>, all: seq<Table>, p: int,
                     base: seq<Soft>, s: seq<Soft>, s': seq<Soft>)
    requires SoftDone(m, w, all, p, base, s) && p < |all|
    requires s' == s + (if w[all[p]] > 0 then [Soft([m[X(all[p])]], w[all[p]])] else [])
    ensures SoftDone(m, w, all, p + 1, base, s')
  {
    var prefix := all[..p + 1];
    assert prefix[..p] == all[..p] && prefix[p] == all[p];
    assert Keyed(m, w, prefix) by {
      forall t | t in prefix ensures t in w && X(t) in m {
        assert t in all;
      }
    }
    var last := if w[all[p]] > 0 then [Soft([m[X(all[p])]], w[all[p]])] else [];
    assert PositiveSoft(m, w, prefix) == PositiveSoft(m, w, all[..p]) + last;
    Append3(base, PositiveSoft(m, w, all[..p]), last);
  }

  lemma ValidityDoneStart(m: map<Var, int>, n: int, all: seq<Table>, h: seq<Constraint>)
    ensures ValidityDone(m, m, n, all, 0, h, h)
  {
    assert all[..0] == [];
  }

  /** A validity loop that ends where the next starts: the names it found
      are the next one's starting names. */
  lemma ValidityDoneRebase(m0: map<Var, int>, m: map<Var, int>, n: int, all: seq<Table>, p: int,
                           base: seq<Constraint>, h: seq<Constraint>)
    requires ValidityDone(m0, m, n, all, p, base, h)
    ensures ValidityDone(m, m, n, all, p, base, h)
  {
  }

  /** After the list loop, both validity loops and the y_vars loop, every
      variable of the instance is named. */
  lemma BuildNamed(m1: map<Var, int>, m3: map<Var, int>, m4: map<Var, int>, n: nat, h1: seq<Constraint>)
    requires ListsDone(map[], m1, n, n, [], h1)
    requires Extends(m3, m1) && Extends(m4, m3)
    requires forall v :: v in m4 <==> v in m3 || (v.Y? && 0 <= v.s < n)
    ensures forall v :: ZeroVar(v, n) ==> v in m4
    ensures Extends(m4, m1)
  {
    forall v | ZeroVar(v, n) ensures v in m4 {
      if v.X? {
        assert v in m1;
      }
    }
  }

  /** ... and the clauses appended are those of Temp5Hard. */
  lemma BuildHard(m1: map<Var, int>, m2: map<Var, int>, m3: map<Var, int>, m4: map<Var, int>, n: nat,
                  h1: seq<Constraint>, h3: seq<Constraint>, h4: seq<Constraint>)
    requires ListsDone(map[], m1, n, n, [], h1)
    requires ValidityDone(m2, m3, n, ZeroCandidates(n), |ZeroCandidates(n)|, h1, h3)
    requires Extends(m4, m1) && Extends(m4, m3) && ZeroNumbered(m4, n)
    requires h4 == h3 + [Exactly(ZeroFlagIds(m4, n), GroupedSeatBound(n))]
    ensures h4 == Temp5Hard(m4, n)
  {
    var all := ZeroCandidates(n);
    assert all[..|all|] == all;
    PairwiseListsExtend(m1, m4, n, n);
    ValidityClausesExtend(m3, m4, all);
    var lists, v := PairwiseLists(m4, n, n), Clauses(ValidityClauses(m4, all));
    assert h1 == lists;
    assert h3 == lists + v;
    Temp5HardParts(m4, n);
  }

  lemma Temp5HardParts(ids: map<Var, int>, n: nat)
    requires ZeroNumbered(ids, n)
    ensures forall t :: t in ZeroCandidates(n) ==> X(t) in ids && forall s :: s in Members(t) ==> Y(s) in ids
    ensures Temp5Hard(ids, n) == PairwiseLists(ids, n, n) + Clauses(ValidityClauses(ids, ZeroCandidates(n)))
      + [Exactly(ZeroFlagIds(ids, n), GroupedSeatBound(n))]
  {
    ZeroCandidatesFacts(n);
    OrderNumbered(ids, n, ZeroCandidates(n));
  }

  class TcpcModel {
    /** instance.num_students, graph and weights as passed to __init__. */
    const n: nat
    const graph: Prefs
    const weights: map<int, int>

    var varMap: map<Var, int>
    var inverseVarMap: map<int, Var>
    var currentVar: int
    /** The hard and soft clauses of the wcnf, the cardinality constraint
        kept whole. */
    var hard: seq<Constraint>
    var soft: seq<Soft>

    ghost predicate Valid()
      reads this
    {
      Allocated(varMap, inverseVarMap, currentVar)
    }

    constructor (numStudents: nat, graph: Prefs, weights: map<int, int>)
      ensures Valid()
      ensures n == numStudents && this.graph == graph && this.weights == weights
      ensures varMap == map[] && inverseVarMap == map[] && currentVar == 1
      ensures hard == [] && soft == []
    {
      n := numStudents;
      this.graph := graph;
      this.weights := weights;
      varMap, inverseVarMap, currentVar := map[], map[], 1;
      hard, soft := [], [];
    }

    /** get_var: the id of name, handing out the next id to a new name. */
    method GetVar(name: Var) returns (id: int)
      requires Valid()
      modifies this
      ensures Valid()
      ensures id == if name in old(varMap) then old(varMap)[name] else old(currentVar)
      ensures varMap == old(varMap)[name := id] && inverseVarMap == old(inverseVarMap)[id := name]
      ensures currentVar == old(currentVar) + if name in old(varMap) then 0 else 1
      ensures id >= 1 && hard == old(hard) && soft == old(soft)
    {
      if name !in varMap {
        varMap := varMap[name := currentVar];
        inverseVarMap := inverseVarMap[currentVar := name];
        currentVar := currentVar + 1;
      }
      id := varMap[name];
      assert varMap == varMap[name := id];
      assert inverseVarMap == inverseVarMap[id := name];
    }

    /** add_hard_constraint */
    method AddHardConstraint(clause: seq<int>)
      modifies this
      ensures hard == old(hard) + [Clause(clause)]
      ensures varMap == old(varMap) && inverseVarMap == old(inverseVarMap) && currentVar == old(currentVar)
      ensures soft == old(soft)
    {
      hard := hard + [Clause(clause)];
    }

    /** add_soft_constraint */
    method AddSoftConstraint(clause: seq<int>, weight: int)
      modifies this
      ensures soft == old(soft) + [Soft(clause, weight)]
      ensures varMap == old(varMap) && inverseVarMap == old(inverseVarMap) && currentVar == old(currentVar)
      ensures hard == old(hard)
    {
      soft := soft + [Soft(clause, weight)];
    }

    /** The get_var calls of a list comprehension of build_model: the ids of
        the tables ts, in order, naming the new ones. */
    method AllocateTables(ts: seq<Table>) returns (clauses: seq<int>)
      requires Valid()
      modifies this
      ensures Valid() && Extends(varMap, old(varMap))
      ensures forall v :: v in varMap <==> v in old(varMap) || (v.X? && v.t in ts)
      ensures forall t :: t in ts ==> X(t) in varMap
      ensures clauses == IdsOf(varMap, ts)
      ensures hard == old(hard) && soft == old(soft)
    {
      clauses := [];
      var p := 0;
      while p < |ts|
        invariant 0 <= p <= |ts|
        invariant Valid() && Extends(varMap, old(varMap))
        invariant forall v :: v in varMap <==> v in old(varMap) || (v.X? && v.t in ts[..p])
        invariant forall t :: t in ts[..p] ==> X(t) in varMap
        invariant clauses == IdsOf(varMap, ts[..p])
        invariant hard == old(hard) && soft == old(soft)
      {
        ghost var before := varMap;
        var id := GetVar(X(ts[p]));
        AllocateStep(before, varMap, ts, p, clauses, id);
        clauses := clauses + [id];
        p := p + 1;
      }
      assert ts[..p] == ts;
    }
    /** The loop over the students that opens build_model: name the tables
        of each student's list and append [-a, -b] for every two of them. */
    method AddLists()
      requires Valid()
      modifies this
      ensures Valid() && ListsDone(old(varMap), varMap, n, n, old(hard), hard)
      ensures soft == old(soft)
    {
      var i := 0;
      while i < n
        invariant Valid() && ListsDone(old(varMap), varMap, n, i, old(hard), hard)
        invariant soft == old(soft)
      {
        ghost var before := varMap;
        var clauses := AllocateTables(ListedTables(i, n));
        var cs := PairwiseLoop(clauses);
        ListsDoneStep(old(varMap), before, varMap, n, i, old(hard), hard, cs);
        hard := hard + Clauses(cs);
        i := i + 1;
      }
    }

    /** The body of the validity loop of build_model over the pairs: name
        x_i_j, y_i and y_j, then append [-x, y_i] and [-x, y_j]. */
    method AddPairClauses(t: Table)
      requires Valid() && t.Pair? && Candidate(t, n)
      modifies this
      ensures Valid() && Extends(varMap, old(varMap))
      ensures forall v :: v in varMap ==> v in old(varMap) || ZeroVar(v, n)
      ensures X(t) in varMap && forall s :: s in Members(t) ==> Y(s) in varMap
      ensures hard == old(hard) + Clauses(TableClauses(varMap, t))
      ensures soft == old(soft)
    {
      ghost var m0 := varMap;
      var x := GetVar(X(t));
      ghost var m1 := varMap;
      var yi := GetVar(Y(t.a));
      ghost var m2 := varMap;
      var yj := GetVar(Y(t.b));
      PairNamed(m0, m1, m2, varMap, t, x, yi, yj, n);
      ghost var h0 := hard;
      AddHardConstraint([-x, yi]);
      ghost var h1 := hard;
      AddHardConstraint([-x, yj]);
      AppendTwo(h0, h1, hard, [-x, yi], [-x, yj]);
    }

    /** The body of the validity loop of build_model over the triples: name
        x_i_j_k, y_i, y_j and y_k, then append [-x, -y] for each of the
        three. */
    method AddTripleClauses(t: Table)
      requires Valid() && t.Triple? && Candidate(t, n)
      modifies this
      ensures Valid() && Extends(varMap, old(varMap))
      ensures forall v :: v in varMap ==> v in old(varMap) || ZeroVar(v, n)
      ensures X(t) in varMap && forall s :: s in Members(t) ==> Y(s) in varMap
      ensures hard == old(hard) + Clauses(TableClauses(varMap, t))
      ensures soft == old(soft)
    {
      ghost var m0 := varMap;
      var x := GetVar(X(t));
      ghost var m1 := varMap;
      var yi := GetVar(Y(t.a));
      ghost var m2 := varMap;
      var yj := GetVar(Y(t.b));
      ghost var m3 := varMap;
      var yk := GetVar(Y(t.c));
      TripleNamed(m0, m1, m2, m3, varMap, t, x, yi, yj, yk, n);
      ghost var h0 := hard;
      AddHardConstraint([-x, -yi]);
      ghost var h1 := hard;
      AddHardConstraint([-x, -yj]);
      ghost var h2 := hard;
      AddHardConstraint([-x, -yk]);
      AppendThree(h0, h1, h2, hard, [-x, -yi], [-x, -yj], [-x, -yk]);
    }

    /** The body of either validity loop of build_model. */
    method AddTableClauses(t: Table)
      requires Valid() && Candidate(t, n)
      modifies this
      ensures Valid() && Extends(varMap, old(varMap))
      ensures forall v :: v in varMap ==> v in old(varMap) || ZeroVar(v, n)
      ensures X(t) in varMap && forall s :: s in Members(t) ==> Y(s) in varMap
      ensures hard == old(hard) + Clauses(TableClauses(varMap, t))
      ensures soft == old(soft)
    {
      if t.Pair? {
        AddPairClauses(t);
      } else {
        AddTripleClauses(t);
      }
    }

    /** One of the two combinations loops of build_model that append the
        validity clauses, over all[lo..hi). */
    method AddValidity(all: seq<Table>, lo: int, hi: int, ghost base: seq<Constraint>)
      requires Valid() && lo <= hi <= |all| && ValidityDone(varMap, varMap, n, all, lo, base, hard)
      requires forall t :: t in all ==> Candidate(t, n)
      modifies this
      ensures Valid() && ValidityDone(old(varMap), varMap, n, all, hi, base, hard)
      ensures soft == old(soft)
    {
      var p := lo;
      while p < hi
        invariant lo <= p <= hi
        invariant Valid() && ValidityDone(old(varMap), varMap, n, all, p, base, hard)
        invariant soft == old(soft)
      {
        ghost var before, prev := varMap, hard;
        assert all[p] in all;
        AddTableClauses(all[p]);
        ValidityDoneStep(old(varMap), before, varMap, n, all, p, base, prev, hard);
        p := p + 1;
      }
    }

    /** The y_vars loop of build_model, then sum(y_vars) == (N // 7) * 4
        appended whole. */
    method AddSeatCount()
      requires Valid()
      modifies this
      ensures Valid() && Extends(varMap, old(varMap))
      ensures forall v :: v in varMap <==> v in old(varMap) || (v.Y? && 0 <= v.s < n)
      ensures hard == old(hard) + [Exactly(ZeroFlagIds(varMap, n), GroupedSeatBound(n))]
      ensures soft == old(soft)
    {
      var yVars := [];
      var i := 0;
      while i < n
        invariant 0 <= i <= n && Valid() && Extends(varMap, old(varMap))
        invariant forall v :: v in varMap <==> v in old(varMap) || (v.Y? && 0 <= v.s < i)
        invariant yVars == ZeroFlagIds(varMap, i)
        invariant hard == old(hard) && soft == old(soft)
      {
        ghost var before := varMap;
        var id := GetVar(Y(i));
        FlagStep(old(varMap), before, varMap, i, yVars, id);
        yVars := yVars + [id];
        i := i + 1;
      }
      hard := hard + [Exactly(yVars, (n / 7) * 4)];
    }

    /** The weight a soft loop of build_model gives the candidate t, in
        eighths: 2 * (wi * wj) for a pair, wi being 1 when graph[i] holds j;
        3 * (wi * wj * wk) / 8 for a triple, wi counting which of j, k
        graph[i] holds. Either is the weight by set membership. */
    method SoftWeight(t: Table) returns (weight: int)
      requires Candidate(t, n)
      ensures weight == SetWeight(graph, t)
    {
      match t
      case Pair(i, j) =>
        var wi := if j in Get(graph, i) then 1 else 0;
        var wj := if i in Get(graph, j) then 1 else 0;
        weight := 16 * (wi * wj);
      case Triple(i, j, k) =>
        var wi := Ind(j in Get(graph, i)) + Ind(k in Get(graph, i));
        var wj := Ind(i in Get(graph, j)) + Ind(k in Get(graph, j));
        var wk := Ind(i in Get(graph, k)) + Ind(j in Get(graph, k));
        assert wi == Liked(graph, i, j, k) && wj == Liked(graph, j, i, k) && wk == Liked(graph, k, i, j);
        SetTripleWeightRange(graph, i, j, k);
        weight := 3 * (wi * wj * wk);
    }

    /** The body of either soft loop of build_model, for the table all[p]. */
    method AddSoftTable(all: seq<Table>, p: int, ghost base: seq<Soft>)
      requires Valid() && 0 <= p < |all| && Candidate(all[p], n)
      requires SoftDone(varMap, ZeroWeights(graph, n), all, p, base, soft)
      modifies this
      ensures Valid() && SoftDone(varMap, ZeroWeights(graph, n), all, p + 1, base, soft)
      ensures varMap == old(varMap) && inverseVarMap == old(inverseVarMap) && currentVar == old(currentVar)
      ensures hard == old(hard)
    {
      ghost var prev := soft;
      var t := all[p];
      assert t in all;
      NamedAgain(varMap, inverseVarMap, currentVar, X(t));
      var x := GetVar(X(t));
      var weight := SoftWeight(t);
      ZeroWeightOf(graph, n, t);
      if weight > 0 {
        AddSoftConstraint([x], weight);
      }
      SoftDoneStep(varMap, ZeroWeights(graph, n), all, p, base, prev, soft);
    }

    /** One of the two soft loops of build_model, over all[lo..hi). */
    method AddSoft(all: seq<Table>, lo: int, hi: int, ghost base: seq<Soft>)
      requires Valid() && lo <= hi <= |all| && forall t :: t in all ==> Candidate(t, n)
      requires SoftDone(varMap, ZeroWeights(graph, n), all, lo, base, soft)
      modifies this
      ensures Valid() && SoftDone(varMap, ZeroWeights(graph, n), all, hi, base, soft)
      ensures varMap == old(varMap) && inverseVarMap == old(inverseVarMap) && currentVar == old(currentVar)
      ensures hard == old(hard)
    {
      var p := lo;
      while p < hi
        invariant lo <= p <= hi
        invariant Valid() && SoftDone(varMap, ZeroWeights(graph, n), all, p, base, soft)
        invariant varMap == old(varMap) && inverseVarMap == old(inverseVarMap) && currentVar == old(currentVar)
        invariant hard == old(hard)
      {
        assert all[p] in all;
        AddSoftTable(all, p, base);
        p := p + 1;
      }
    }

    /** build_model: the hard clauses of Temp5Hard and the soft clauses of
        the candidates of positive weight, over ids that name every
        variable of the instance once. */
    method BuildModel()
      requires Valid() && varMap == map[] && hard == [] && soft == []
      modifies this
      ensures Valid() && ZeroIds(varMap, n)
      ensures hard == Temp5Hard(varMap, n)
      ensures soft == PositiveSoft(varMap, ZeroWeights(graph, n), ZeroCandidates(n))
    {
      AddLists();
      ghost var m1, h1 := varMap, hard;
      var pairs, triples := PairsUpTo(0, n, n), TriplesUpTo(0, n, n);
      var all := pairs + triples;
      ZeroCandidatesFacts(n);
      ValidityDoneStart(varMap, n, all, hard);
      AddValidity(all, 0, |pairs|, h1);
      ghost var m2 := varMap;
      ValidityDoneRebase(m1, m2, n, all, |pairs|, h1, hard);
      AddValidity(all, |pairs|, |all|, h1);
      ghost var m3 := varMap;
      AddSeatCount();
      BuildNamed(m1, m3, varMap, n, h1);
      AllocatedZeroIds(varMap, inverseVarMap, currentVar, n);
      BuildHard(m1, m2, m3, varMap, n, h1, hard[..|hard| - 1], hard);
      ZeroKeyed(varMap, graph, n);
      SoftDoneStart(varMap, ZeroWeights(graph, n), all);
      AddSoft(all, 0, |pairs|, []);
      AddSoft(all, |pairs|, |all|, []);
      assert all[..|all|] == all;
    }
  }

  // ---------------------------------------------------------------------
  // build_graph

  /** graph[s] is the list of s, for every student whose list is not
      empty; weights[s] is its length. The loop visits the students in the
      order of the dictionary, each once. */
  method BuildGraph(prefs: Prefs, order: seq<int>) returns (graph: Prefs, weights: map<int, int>)
    requires Distinct(order) && forall s :: s in prefs <==> s in order
    ensures forall s :: s in graph <==> s in prefs && prefs[s] != []
    ensures forall s :: s in graph ==> graph[s] == prefs[s]
    ensures forall s :: s in weights <==> s in graph
    ensures forall s :: s in weights ==> weights[s] == |prefs[s]|
  {
    graph, weights := map[], map[];
    var p := 0;
    while p < |order|
      invariant 0 <= p <= |order|
      invariant forall s :: s in graph <==> s in order[..p] && prefs[s] != []
      invariant forall s :: s in graph ==> graph[s] == prefs[s]
      invariant forall s :: s in weights <==> s in graph
      invariant forall s :: s in weights ==> weights[s] == |prefs[s]|
    {
      var student := order[p];
      assert student !in order[..p] by {
        forall q | 0 <= q < p ensures order[q] != student {
        }
      }
      var list := prefs[student];
      var r := 0;
      while r < |list|
        invariant 0 <= r <= |list|
        invariant forall s :: s in graph <==> (s in order[..p] && prefs[s] != []) || (s == student && r > 0)
        invariant forall s :: s in graph && s != student ==> graph[s] == prefs[s]
        invariant r > 0 ==> graph[student] == list[..r]
        invariant forall s :: s in weights <==> s in graph
        invariant forall s :: s in weights && s != student ==> weights[s] == |prefs[s]|
        invariant r > 0 ==> weights[student] == r
      {
        var old_list := if student in graph then graph[student] else [];
        var old_count := if student in weights then weights[student] else 0;
        assert list[..r + 1] == list[..r] + [list[r]];
        graph := graph[student := old_list + [list[r]]];
        weights := weights[student := old_count + 1];
        r := r + 1;
      }
      assert list[..|list|] == list;
      assert order[..p + 1] == order[..p] + [student];
      p := p + 1;
    }
    assert order[..|order|] == order;
  }

  /** Reading the graph as the scripts read their dictionaries (a missing
      student has the empty list), it holds the same lists as prefs, so the
      weights computed from it are those of prefs. */
  lemma GraphSameWeights(prefs: Prefs, graph: Prefs)
    requires forall s :: s in graph <==> s in prefs && prefs[s] != []
    requires forall s :: s in graph ==> graph[s] == prefs[s]
    ensures forall s :: Get(graph, s) == Get(prefs, s)
    ensures forall t :: SetWeight(graph, t) == SetWeight(prefs, t)
  {
    assert forall s :: Get(graph, s) == Get(prefs, s);
  }
}
