/** The grouped creation order of the stand-alone scripts: every pair
    variable row by row, then every triple variable, then the seat flags,
    for the students lo..hi-1. cp-sat_minimizing.py creates its variables
    this way for students 1..N; rc2_solver.py, mip_solver.py and
    cp-sat_solver.py do so for students 0..N-1. */
module Grouped {
  import opened Tables
  import opened Membership
  import opened Seating

  /** The pair or triple variable of every table of ts, in order. */
  function Xs(ts: seq<Table>): (r: seq<Var>)
    ensures |r| == |ts|
  {
    if ts == [] then [] else Xs(ts[..|ts| - 1]) + [X(ts[|ts| - 1])]
  }

  /** The seat flags Y(lo), ..., Y(hi - 1). */
  function Flags(lo: int, hi: int): (r: seq<Var>)
    ensures |r| == if hi <= lo then 0 else hi - lo
    decreases hi - lo
  {
    if hi <= lo then [] else Flags(lo, hi - 1) + [Y(hi - 1)]
  }

  /** X(Pair(i, j)) for lo <= j < hi. */
  function PairRowVars(i: int, lo: int, hi: int): seq<Var>
  {
    seq(if hi <= lo then 0 else hi - lo, p => X(Pair(i, lo + p)))
  }

  /** X(Triple(i, j, k)) for lo <= k < hi. */
  function RowVars(i: int, j: int, lo: int, hi: int): seq<Var>
  {
    seq(if hi <= lo then 0 else hi - lo, p => X(Triple(i, j, lo + p)))
  }

  /** The rows of the triples led by i, for jlo <= j < jhi. */
  function LedVars(i: int, jlo: int, jhi: int, khi: int): seq<Var>
    decreases jhi - jlo
  {
    if jhi <= jlo then [] else LedVars(i, jlo, jhi - 1, khi) + RowVars(i, jhi - 1, jhi, khi)
  }

  /** The pair variables of the rows lo..m-1. */
  function PairVars(lo: int, m: int, hi: int): seq<Var>
    decreases m - lo
  {
    if m <= lo then [] else PairVars(lo, m - 1, hi) + PairRowVars(m - 1, m, hi)
  }

  /** The triple variables led by lo..m-1. */
  function TripleVars(lo: int, m: int, hi: int): seq<Var>
    decreases m - lo
  {
    if m <= lo then [] else TripleVars(lo, m - 1, hi) + LedVars(m - 1, m, hi, hi)
  }

  /** Every pair variable row by row, every triple variable, every seat
      flag: the order in which the counter loops hand out ids. */
  function GroupedOrder(lo: int, hi: int): seq<Var>
  {
    PairVars(lo, hi, hi) + TripleVars(lo, hi, hi) + Flags(lo, hi)
  }

  /** The same order, table by table. */
  lemma GroupedOrderXs(lo: int, hi: int)
    ensures GroupedOrder(lo, hi) == Xs(PairsUpTo(lo, hi, hi)) + Xs(TriplesUpTo(lo, hi, hi)) + Flags(lo, hi)
  {
    PairVarsAreXs(lo, hi, hi);
    TripleVarsAreXs(lo, hi, hi);
  }

  /** Entry p of Xs(ts) is the variable of ts[p]. */
  lemma {:induction false} XsAt(ts: seq<Table>)
    ensures forall p :: 0 <= p < |ts| ==> Xs(ts)[p] == X(ts[p])
  {
    if ts != [] {
      var init := ts[..|ts| - 1];
      XsAt(init);
      assert forall p :: 0 <= p < |init| ==> ts[p] == init[p];
    }
  }

  /** Entry p of Flags(lo, hi) is the seat flag of student lo + p. */
  lemma {:induction false} FlagsAt(lo: int, hi: int)
    ensures forall p :: 0 <= p < |Flags(lo, hi)| ==> Flags(lo, hi)[p] == Y(lo + p)
    decreases hi - lo
  {
    if lo < hi {
      FlagsAt(lo, hi - 1);
    }
  }

  lemma XsSnoc(ts: seq<Table>, t: Table)
    ensures Xs(ts + [t]) == Xs(ts) + [X(t)]
  {
    assert (ts + [t])[..|ts|] == ts;
  }

  lemma XsFacts(ts: seq<Table>)
    requires Distinct(ts)
    ensures Distinct(Xs(ts))
    ensures forall v :: v in Xs(ts) <==> v.X? && v.t in ts
  {
    var r := Xs(ts);
    XsAt(ts);
    forall v: Var | v.X? && v.t in ts ensures v in r {
      var p :| 0 <= p < |ts| && ts[p] == v.t;
      assert r[p] == v;
    }
  }

  lemma FlagsFacts(lo: int, hi: int)
    ensures Distinct(Flags(lo, hi))
    ensures forall v :: v in Flags(lo, hi) <==> v.Y? && lo <= v.s < hi
  {
    var r := Flags(lo, hi);
    FlagsAt(lo, hi);
    forall v: Var | v.Y? && lo <= v.s < hi ensures v in r {
      assert r[v.s - lo] == v;
    }
  }

  /** The grouped order lists every variable of the students lo..hi-1
      once, C(m,2) + C(m,3) + m of them for m = hi - lo. */
  lemma GroupedFacts(lo: int, hi: int)
    requires lo <= hi
    ensures Distinct(GroupedOrder(lo, hi))
    ensures forall v :: v in GroupedOrder(lo, hi) <==>
      (v.X? && InRange(v.t, lo, hi - 1)) || (v.Y? && lo <= v.s < hi)
    ensures |GroupedOrder(lo, hi)| == C2(hi - lo) + C3(hi - lo) + (hi - lo)
  {
    GroupedOrderXs(lo, hi);
    var pairs, triples := PairsUpTo(lo, hi, hi), TriplesUpTo(lo, hi, hi);
    PairsUpToFacts(lo, hi, hi);
    TriplesUpToFacts(lo, hi, hi);
    PairsUpToLength(lo, hi, hi);
    TriplesUpToLength(lo, hi, hi);
    XsFacts(pairs);
    XsFacts(triples);
    FlagsFacts(lo, hi);
    DistinctConcat(Xs(pairs), Xs(triples));
    DistinctConcat(Xs(pairs) + Xs(triples), Flags(lo, hi));
  }

  /** The entry at position p of a duplicate-free sequence gets the id p + 1. */
  lemma NumberingAt<T>(s: seq<T>, p: int)
    requires Distinct(s) && 0 <= p < |s|
    ensures s[p] in Numbering(s) && Numbering(s)[s[p]] == p + 1
  {
    NumberingFacts(s);
  }

  lemma GroupedDistinct(lo: int, hi: int)
    requires lo <= hi
    ensures Distinct(GroupedOrder(lo, hi))
  {
    GroupedFacts(lo, hi);
    PairsUpToFacts(lo, hi, hi);
    TriplesUpToLength(lo, hi, hi);
  }

  /** Under the grouped numbering the pairs take the ids 1..C(m,2) in
      dictionary order. */
  lemma GroupedPairIds(lo: int, hi: int, p: int)
    requires lo <= hi && 0 <= p < |PairsUpTo(lo, hi, hi)|
    ensures var t := PairsUpTo(lo, hi, hi)[p];
      X(t) in Numbering(GroupedOrder(lo, hi)) && Numbering(GroupedOrder(lo, hi))[X(t)] == p + 1
  {
    GroupedOrderXs(lo, hi);
    var xp, xt, fl := Xs(PairsUpTo(lo, hi, hi)), Xs(TriplesUpTo(lo, hi, hi)), Flags(lo, hi);
    GroupedFacts(lo, hi);
    XsAt(PairsUpTo(lo, hi, hi));
    assert (xp + xt + fl)[p] == xp[p];
    NumberingAt(GroupedOrder(lo, hi), p);
  }

  /** The triples take the next C(m,3) ids, in dictionary order. */
  lemma GroupedTripleIds(lo: int, hi: int, p: int)
    requires lo <= hi && 0 <= p < |TriplesUpTo(lo, hi, hi)|
    ensures var t := TriplesUpTo(lo, hi, hi)[p];
      X(t) in Numbering(GroupedOrder(lo, hi)) &&
      Numbering(GroupedOrder(lo, hi))[X(t)] == C2(hi - lo) + p + 1
  {
    GroupedOrderXs(lo, hi);
    var xp, xt, fl := Xs(PairsUpTo(lo, hi, hi)), Xs(TriplesUpTo(lo, hi, hi)), Flags(lo, hi);
    GroupedDistinct(lo, hi);
    assert |xp| == C2(hi - lo) by {
      PairsUpToLength(lo, hi, hi);
    }
    XsAt(TriplesUpTo(lo, hi, hi));
    assert (xp + xt + fl)[|xp| + p] == xt[p];
    NumberingAt(GroupedOrder(lo, hi), |xp| + p);
  }

  /** The seat flag of student s takes the id C(m,2) + C(m,3) + (s - lo) + 1. */
  lemma GroupedFlagIds(lo: int, hi: int, s: int)
    requires lo <= s < hi
    ensures Y(s) in Numbering(GroupedOrder(lo, hi)) &&
      Numbering(GroupedOrder(lo, hi))[Y(s)] == C2(hi - lo) + C3(hi - lo) + (s - lo) + 1
  {
    GroupedOrderXs(lo, hi);
    var xp, xt, fl := Xs(PairsUpTo(lo, hi, hi)), Xs(TriplesUpTo(lo, hi, hi)), Flags(lo, hi);
    GroupedFacts(lo, hi);
    PairsUpToFacts(lo, hi, hi);
    TriplesUpToLength(lo, hi, hi);
    FlagsAt(lo, hi);
    assert (xp + xt + fl)[|xp| + |xt| + (s - lo)] == fl[s - lo];
    NumberingAt(GroupedOrder(lo, hi), |xp| + |xt| + (s - lo));
  }

  lemma GroupedHas(n: nat, v: Var)
    requires ValidVar(v, n)
    ensures v in Numbering(GroupedOrder(1, n + 1)) && Numbering(GroupedOrder(1, n + 1))[v] > 0
  {
    var order := GroupedOrder(1, n + 1);
    GroupedFacts(1, n + 1);
    assert v in order;
    var p :| 0 <= p < |order| && order[p] == v;
    NumberingAt(order, p);
  }

  /** Numbering the grouped order of students 1..N gives every variable of
      the 1-indexed model its own positive id. */
  lemma GroupedIdsFor(n: nat)
    ensures IdsFor(Numbering(GroupedOrder(1, n + 1)), n)
  {
    GroupedDistinct(1, n + 1);
    NumberingOneToOne(GroupedOrder(1, n + 1));
    forall v | ValidVar(v, n) ensures v in Numbering(GroupedOrder(1, n + 1)) && Numbering(GroupedOrder(1, n + 1))[v] > 0 {
      GroupedHas(n, v);
    }
  }

  // ---------------------------------------------------------------------
  // The counter loops of rc2_solver.py

  /** The counter loops of rc2_solver.py: every pair (i, j) of the students
      lo..hi-1 row by row, then every triple (i, j, k), then every seat flag,
      each taking the next value of count from 1 on. pairs and triples are
      the keys of x_ij and x_ijk in insertion order. */
  method NumberGrouped(lo: int, hi: int) returns (ids: map<Var, int>, pairs: seq<Table>, triples: seq<Table>, count: int)
    requires lo <= hi
    ensures ids == Numbering(GroupedOrder(lo, hi))
    ensures pairs == PairsUpTo(lo, hi, hi) && triples == TriplesUpTo(lo, hi, hi)
    ensures count == C2(hi - lo) + C3(hi - lo) + (hi - lo) + 1
  {
    pairs, triples := PairsUpTo(lo, hi, hi), TriplesUpTo(lo, hi, hi);
    var ids1, count1 := NumberPairsGrouped(lo, hi);
    var ids2, count2 := NumberTriplesGrouped(lo, hi, ids1, count1);
    ids, count := NumberFlagsGrouped(lo, hi, ids2, count2);
    var pv, tv, fl := PairVars(lo, hi, hi), TripleVars(lo, hi, hi), Flags(lo, hi);
    CountedConcat(ids1, count1, ids2, count2, map[], 1, pv, tv, pv + tv);
    CountedConcat(ids2, count2, ids, count, map[], 1, pv + tv, fl, GroupedOrder(lo, hi));
    CountedNumbering(ids, count, GroupedOrder(lo, hi));
    GroupedLength(lo, hi);
  }

  /** The first double loop: x_ij[(i, j)] = count for lo <= i < j < hi. */
  method NumberPairsGrouped(lo: int, hi: int) returns (ids: map<Var, int>, count: int)
    requires lo <= hi
    ensures Counted(ids, count, map[], 1, PairVars(lo, hi, hi))
  {
    ids, count := map[], 1;
    var i := lo;
    while i < hi
      invariant lo <= i <= hi
      invariant Counted(ids, count, map[], 1, PairVars(lo, i, hi))
    {
      var ids1, count1 := ids, count;
      ids, count := NumberPairRowGrouped(i, hi, ids, count);
      PairVarsSnoc(lo, i, hi);
      CountedConcat(ids1, count1, ids, count, map[], 1, PairVars(lo, i, hi), PairRowVars(i, i + 1, hi), PairVars(lo, i + 1, hi));
      i := i + 1;
    }
  }

  /** The loop over j for one i: x_ij[(i, j)] = count for i < j < hi, the
      counter going on from count0. */
  method NumberPairRowGrouped(i: int, hi: int, ids0: map<Var, int>, count0: int) returns (ids: map<Var, int>, count: int)
    requires i < hi
    ensures Counted(ids, count, ids0, count0, PairRowVars(i, i + 1, hi))
  {
    ids, count := ids0, count0;
    var j := i + 1;
    while j < hi
      invariant i + 1 <= j <= hi
      invariant Counted(ids, count, ids0, count0, PairRowVars(i, i + 1, j))
    {
      PairRowVarsSnoc(i, j);
      CountedSnoc(ids, count, ids0, count0, PairRowVars(i, i + 1, j), X(Pair(i, j)), PairRowVars(i, i + 1, j + 1));
      ids, count := ids[X(Pair(i, j)) := count], count + 1;
      j := j + 1;
    }
  }

  /** The triple loop: x_ijk[(i, j, k)] = count for lo <= i < j < k < hi,
      the counter going on from count0. */
  method NumberTriplesGrouped(lo: int, hi: int, ids0: map<Var, int>, count0: int) returns (ids: map<Var, int>, count: int)
    requires lo <= hi
    ensures Counted(ids, count, ids0, count0, TripleVars(lo, hi, hi))
  {
    ids, count := ids0, count0;
    var i := lo;
    while i < hi
      invariant lo <= i <= hi
      invariant Counted(ids, count, ids0, count0, TripleVars(lo, i, hi))
    {
      var ids1, count1 := ids, count;
      ids, count := NumberLedGrouped(i, hi, ids, count);
      TripleVarsSnoc(lo, i, hi);
      CountedConcat(ids1, count1, ids, count, ids0, count0, TripleVars(lo, i, hi), LedVars(i, i + 1, hi, hi), TripleVars(lo, i + 1, hi));
      i := i + 1;
    }
  }

  /** The loops over j and k for one i: x_ijk[(i, j, k)] = count for
      i < j < k < hi, the counter going on from count0. */
  method NumberLedGrouped(i: int, hi: int, ids0: map<Var, int>, count0: int) returns (ids: map<Var, int>, count: int)
    requires i < hi
    ensures Counted(ids, count, ids0, count0, LedVars(i, i + 1, hi, hi))
  {
    ids, count := ids0, count0;
    var j := i + 1;
    while j < hi
      invariant i + 1 <= j <= hi
      invariant Counted(ids, count, ids0, count0, LedVars(i, i + 1, j, hi))
    {
      var ids1, count1 := ids, count;
      ids, count := NumberRowGrouped(i, j, hi, ids, count);
      LedVarsSnoc(i, j, hi);
      CountedConcat(ids1, count1, ids, count, ids0, count0, LedVars(i, i + 1, j, hi), RowVars(i, j, j + 1, hi), LedVars(i, i + 1, j + 1, hi));
      j := j + 1;
    }
  }

  /** The innermost loop: x_ijk[(i, j, k)] = count for j < k < hi, the
      counter going on from count0. */
  method NumberRowGrouped(i: int, j: int, hi: int, ids0: map<Var, int>, count0: int) returns (ids: map<Var, int>, count: int)
    requires j < hi
    ensures Counted(ids, count, ids0, count0, RowVars(i, j, j + 1, hi))
  {
    ids, count := ids0, count0;
    var k := j + 1;
    while k < hi
      invariant j + 1 <= k <= hi
      invariant Counted(ids, count, ids0, count0, RowVars(i, j, j + 1, k))
    {
      RowVarsSnoc(i, j, k);
      CountedSnoc(ids, count, ids0, count0, RowVars(i, j, j + 1, k), X(Triple(i, j, k)), RowVars(i, j, j + 1, k + 1));
      ids, count := ids[X(Triple(i, j, k)) := count], count + 1;
      k := k + 1;
    }
  }

  /** The seat-flag loop: y[s] = count for lo <= s < hi, the counter going
      on from count0. */
  method NumberFlagsGrouped(lo: int, hi: int, ids0: map<Var, int>, count0: int) returns (ids: map<Var, int>, count: int)
    requires lo <= hi
    ensures Counted(ids, count, ids0, count0, Flags(lo, hi))
  {
    ids, count := ids0, count0;
    var s := lo;
    while s < hi
      invariant lo <= s <= hi
      invariant Counted(ids, count, ids0, count0, Flags(lo, s))
    {
      CountedSnoc(ids, count, ids0, count0, Flags(lo, s), Y(s), Flags(lo, s + 1));
      ids, count := ids[Y(s) := count], count + 1;
      s := s + 1;
    }
  }

  /** The grouped order has C(m,2) + C(m,3) + m variables for m = hi - lo. */
  lemma GroupedLength(lo: int, hi: int)
    requires lo <= hi
    ensures |GroupedOrder(lo, hi)| == C2(hi - lo) + C3(hi - lo) + (hi - lo)
  {
    PairVarsAreXs(lo, hi, hi);
    TripleVarsAreXs(lo, hi, hi);
    PairsUpToLength(lo, hi, hi);
    TriplesUpToLength(lo, hi, hi);
  }

  lemma PairVarsSnoc(lo: int, i: int, hi: int)
    requires lo <= i
    ensures PairVars(lo, i + 1, hi) == PairVars(lo, i, hi) + PairRowVars(i, i + 1, hi)
  {
  }

  lemma TripleVarsSnoc(lo: int, i: int, hi: int)
    requires lo <= i
    ensures TripleVars(lo, i + 1, hi) == TripleVars(lo, i, hi) + LedVars(i, i + 1, hi, hi)
  {
  }

  lemma LedVarsSnoc(i: int, j: int, hi: int)
    requires i + 1 <= j
    ensures LedVars(i, i + 1, j + 1, hi) == LedVars(i, i + 1, j, hi) + RowVars(i, j, j + 1, hi)
  {
  }

  lemma RowVarsSnoc(i: int, j: int, k: int)
    requires j + 1 <= k
    ensures RowVars(i, j, j + 1, k + 1) == RowVars(i, j, j + 1, k) + [X(Triple(i, j, k))]
  {
  }

  lemma PairRowVarsSnoc(i: int, j: int)
    requires i + 1 <= j
    ensures PairRowVars(i, i + 1, j + 1) == PairRowVars(i, i + 1, j) + [X(Pair(i, j))]
  {
  }

  lemma {:induction false} PairRowVarsAreXs(i: int, lo: int, hi: int)
    ensures PairRowVars(i, lo, hi) == Xs(PairsAbove(i, lo, hi))
    decreases hi - lo
  {
    if lo < hi {
      PairRowVarsAreXs(i, lo, hi - 1);
      XsSnoc(PairsAbove(i, lo, hi - 1), Pair(i, hi - 1));
      assert PairRowVars(i, lo, hi) == PairRowVars(i, lo, hi - 1) + [X(Pair(i, hi - 1))];
    }
  }

  lemma {:induction false} RowVarsAreXs(i: int, j: int, lo: int, hi: int)
    ensures RowVars(i, j, lo, hi) == Xs(RowC(i, j, lo, hi))
    decreases hi - lo
  {
    if lo < hi {
      RowVarsAreXs(i, j, lo, hi - 1);
      XsSnoc(RowC(i, j, lo, hi - 1), Triple(i, j, hi - 1));
      assert RowVars(i, j, lo, hi) == RowVars(i, j, lo, hi - 1) + [X(Triple(i, j, hi - 1))];
    }
  }

  lemma {:induction false} LedVarsAreXs(i: int, jlo: int, jhi: int, khi: int)
    ensures LedVars(i, jlo, jhi, khi) == Xs(LedBlock(i, jlo, jhi, khi))
    decreases jhi - jlo
  {
    if jlo < jhi {
      LedVarsAreXs(i, jlo, jhi - 1, khi);
      RowVarsAreXs(i, jhi - 1, jhi, khi);
      XsConcat(LedBlock(i, jlo, jhi - 1, khi), RowC(i, jhi - 1, jhi, khi));
    }
  }

  lemma {:induction false} PairVarsAreXs(lo: int, m: int, hi: int)
    ensures PairVars(lo, m, hi) == Xs(PairsUpTo(lo, m, hi))
    decreases m - lo
  {
    if lo < m {
      PairVarsAreXs(lo, m - 1, hi);
      PairRowVarsAreXs(m - 1, m, hi);
      XsConcat(PairsUpTo(lo, m - 1, hi), PairsAbove(m - 1, m, hi));
    }
  }

  lemma {:induction false} TripleVarsAreXs(lo: int, m: int, hi: int)
    ensures TripleVars(lo, m, hi) == Xs(TriplesUpTo(lo, m, hi))
    decreases m - lo
  {
    if lo < m {
      TripleVarsAreXs(lo, m - 1, hi);
      LedVarsAreXs(m - 1, m, hi, hi);
      XsConcat(TriplesUpTo(lo, m - 1, hi), LedBlock(m - 1, m, hi, hi));
    }
  }

  /** The table variables of u + w are those of u, then those of w. */
  lemma XsConcat(u: seq<Table>, w: seq<Table>)
    ensures Xs(u + w) == Xs(u) + Xs(w)
  {
    XsAt(u + w);
    XsAt(u);
    XsAt(w);
    assert forall p :: 0 <= p < |u + w| ==> Xs(u + w)[p] == (Xs(u) + Xs(w))[p];
  }
}
