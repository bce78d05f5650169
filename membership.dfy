/** The per-student membership lists: for student i, the candidate tables
    that contain i, in the order the solvers list their variables before
    constraining exactly one of them to be true. Every generator below grows
    at its end, as a Python list comprehension does. */
module Membership {
  import opened Tables

  // ---------------------------------------------------------------------
  // Rows: one index varies over lo..hi-1

  /** [(i, j) for j in range(lo, hi)] */
  function PairsAbove(i: int, lo: int, hi: int): seq<Table>
    decreases hi - lo
  {
    if hi <= lo then [] else PairsAbove(i, lo, hi - 1) + [Pair(i, hi - 1)]
  }

  /** [(j, i) for j in range(lo, hi)] */
  function PairsBelow(i: int, lo: int, hi: int): seq<Table>
    decreases hi - lo
  {
    if hi <= lo then [] else PairsBelow(i, lo, hi - 1) + [Pair(hi - 1, i)]
  }

  /** [(a, b, c) for c in range(lo, hi)] */
  function RowC(a: int, b: int, lo: int, hi: int): seq<Table>
    decreases hi - lo
  {
    if hi <= lo then [] else RowC(a, b, lo, hi - 1) + [Triple(a, b, hi - 1)]
  }

  /** [(a, b, c) for a in range(lo, hi)] */
  function RowA(b: int, c: int, lo: int, hi: int): seq<Table>
    decreases hi - lo
  {
    if hi <= lo then [] else RowA(b, c, lo, hi - 1) + [Triple(hi - 1, b, c)]
  }

  /** [(a, b, c) for b in range(lo, hi)] */
  function RowB(a: int, c: int, lo: int, hi: int): seq<Table>
    decreases hi - lo
  {
    if hi <= lo then [] else RowB(a, c, lo, hi - 1) + [Triple(a, hi - 1, c)]
  }

  // ---------------------------------------------------------------------
  // Blocks: two nested loops

  /** [(i, j, k) for j in range(jlo, jhi) for k in range(j + 1, khi)] */
  function LedBlock(i: int, jlo: int, jhi: int, khi: int): seq<Table>
    decreases jhi - jlo
  {
    if jhi <= jlo then [] else LedBlock(i, jlo, jhi - 1, khi) + RowC(i, jhi - 1, jhi, khi)
  }

  /** [(j, i, k) for j in range(jlo, jhi) for k in range(i + 1, khi)] */
  function MidBlock(i: int, jlo: int, jhi: int, khi: int): seq<Table>
    decreases jhi - jlo
  {
    if jhi <= jlo then [] else MidBlock(i, jlo, jhi - 1, khi) + RowC(jhi - 1, i, i + 1, khi)
  }

  /** [(j, k, i) for k in range(klo, khi) for j in range(jlo, k)] */
  function LowKBlock(i: int, klo: int, khi: int, jlo: int): seq<Table>
    decreases khi - klo
  {
    if khi <= klo then [] else LowKBlock(i, klo, khi - 1, jlo) + RowA(khi - 1, i, jlo, khi - 1)
  }

  /** [(j, k, i) for j in range(jlo, jhi) for k in range(j + 1, khi)] */
  function LowJBlock(i: int, jlo: int, jhi: int, khi: int): seq<Table>
    decreases jhi - jlo
  {
    if jhi <= jlo then [] else LowJBlock(i, jlo, jhi - 1, khi) + RowB(jhi - 1, i, jhi, khi)
  }

  // ---------------------------------------------------------------------
  // What each generator holds

  lemma {:induction false} PairsAboveFacts(i: int, lo: int, hi: int)
    ensures forall t :: t in PairsAbove(i, lo, hi) <==> t.Pair? && t.a == i && lo <= t.b < hi
    ensures Distinct(PairsAbove(i, lo, hi))
    ensures |PairsAbove(i, lo, hi)| == if hi <= lo then 0 else hi - lo
    decreases hi - lo
  {
    if hi > lo {
      PairsAboveFacts(i, lo, hi - 1);
      DistinctConcat(PairsAbove(i, lo, hi - 1), [Pair(i, hi - 1)]);
    }
  }

  lemma {:induction false} PairsBelowFacts(i: int, lo: int, hi: int)
    ensures forall t :: t in PairsBelow(i, lo, hi) <==> t.Pair? && t.b == i && lo <= t.a < hi
    ensures Distinct(PairsBelow(i, lo, hi))
    ensures |PairsBelow(i, lo, hi)| == if hi <= lo then 0 else hi - lo
    decreases hi - lo
  {
    if hi > lo {
      PairsBelowFacts(i, lo, hi - 1);
      DistinctConcat(PairsBelow(i, lo, hi - 1), [Pair(hi - 1, i)]);
    }
  }

  lemma {:induction false} RowCFacts(a: int, b: int, lo: int, hi: int)
    ensures forall t :: t in RowC(a, b, lo, hi) <==> t.Triple? && t.a == a && t.b == b && lo <= t.c < hi
    ensures Distinct(RowC(a, b, lo, hi))
    ensures |RowC(a, b, lo, hi)| == if hi <= lo then 0 else hi - lo
    decreases hi - lo
  {
    if hi > lo {
      RowCFacts(a, b, lo, hi - 1);
      DistinctConcat(RowC(a, b, lo, hi - 1), [Triple(a, b, hi - 1)]);
    }
  }

  lemma {:induction false} RowAFacts(b: int, c: int, lo: int, hi: int)
    ensures forall t :: t in RowA(b, c, lo, hi) <==> t.Triple? && t.b == b && t.c == c && lo <= t.a < hi
    ensures Distinct(RowA(b, c, lo, hi))
    ensures |RowA(b, c, lo, hi)| == if hi <= lo then 0 else hi - lo
    decreases hi - lo
  {
    if hi > lo {
      RowAFacts(b, c, lo, hi - 1);
      DistinctConcat(RowA(b, c, lo, hi - 1), [Triple(hi - 1, b, c)]);
    }
  }

  lemma {:induction false} RowBFacts(a: int, c: int, lo: int, hi: int)
    ensures forall t :: t in RowB(a, c, lo, hi) <==> t.Triple? && t.a == a && t.c == c && lo <= t.b < hi
    ensures Distinct(RowB(a, c, lo, hi))
    ensures |RowB(a, c, lo, hi)| == if hi <= lo then 0 else hi - lo
    decreases hi - lo
  {
    if hi > lo {
      RowBFacts(a, c, lo, hi - 1);
      DistinctConcat(RowB(a, c, lo, hi - 1), [Triple(a, hi - 1, c)]);
    }
  }

  lemma {:induction false} LedBlockFacts(i: int, jlo: int, jhi: int, khi: int)
    ensures forall t :: t in LedBlock(i, jlo, jhi, khi) <==>
      t.Triple? && t.a == i && jlo <= t.b < jhi && t.b < t.c < khi
    ensures Distinct(LedBlock(i, jlo, jhi, khi))
    decreases jhi - jlo
  {
    if jhi > jlo {
      LedBlockFacts(i, jlo, jhi - 1, khi);
      RowCFacts(i, jhi - 1, jhi, khi);
      DistinctConcat(LedBlock(i, jlo, jhi - 1, khi), RowC(i, jhi - 1, jhi, khi));
    }
  }

  lemma {:induction false} LedBlockLength(i: int, jlo: int, jhi: int, khi: int)
    requires jlo <= jhi < khi
    ensures |LedBlock(i, jlo, jhi, khi)| + C2(khi - jhi) == C2(khi - jlo)
    decreases jhi - jlo
  {
    if jhi > jlo {
      LedBlockLength(i, jlo, jhi - 1, khi);
      RowCFacts(i, jhi - 1, jhi, khi);
      assert C2(khi - jhi + 1) == C2(khi - jhi) + (khi - jhi);
    }
  }

  lemma {:induction false} MidBlockFacts(i: int, jlo: int, jhi: int, khi: int)
    ensures forall t :: t in MidBlock(i, jlo, jhi, khi) <==>
      t.Triple? && t.b == i && jlo <= t.a < jhi && i < t.c < khi
    ensures Distinct(MidBlock(i, jlo, jhi, khi))
    ensures jlo <= jhi && i < khi ==> |MidBlock(i, jlo, jhi, khi)| == (jhi - jlo) * (khi - i - 1)
    decreases jhi - jlo
  {
    if jhi > jlo {
      MidBlockFacts(i, jlo, jhi - 1, khi);
      RowCFacts(jhi - 1, i, i + 1, khi);
      DistinctConcat(MidBlock(i, jlo, jhi - 1, khi), RowC(jhi - 1, i, i + 1, khi));
      if i < khi {
        assert (jhi - jlo) * (khi - i - 1) == (jhi - 1 - jlo) * (khi - i - 1) + (khi - i - 1);
      }
    }
  }

  lemma {:induction false} LowKBlockFacts(i: int, klo: int, khi: int, jlo: int)
    ensures forall t :: t in LowKBlock(i, klo, khi, jlo) <==>
      t.Triple? && t.c == i && klo <= t.b < khi && jlo <= t.a < t.b
    ensures Distinct(LowKBlock(i, klo, khi, jlo))
    decreases khi - klo
  {
    if khi > klo {
      LowKBlockFacts(i, klo, khi - 1, jlo);
      RowAFacts(khi - 1, i, jlo, khi - 1);
      DistinctConcat(LowKBlock(i, klo, khi - 1, jlo), RowA(khi - 1, i, jlo, khi - 1));
    }
  }

  lemma {:induction false} LowKBlockLength(i: int, klo: int, khi: int, jlo: int)
    requires jlo <= klo <= khi
    ensures |LowKBlock(i, klo, khi, jlo)| + C2(klo - jlo) == C2(khi - jlo)
    decreases khi - klo
  {
    if khi > klo {
      LowKBlockLength(i, klo, khi - 1, jlo);
      RowAFacts(khi - 1, i, jlo, khi - 1);
      assert C2(khi - jlo) == C2(khi - 1 - jlo) + (khi - 1 - jlo);
    }
  }

  lemma {:induction false} LowJBlockFacts(i: int, jlo: int, jhi: int, khi: int)
    ensures forall t :: t in LowJBlock(i, jlo, jhi, khi) <==>
      t.Triple? && t.c == i && jlo <= t.a < jhi && t.a < t.b < khi
    ensures Distinct(LowJBlock(i, jlo, jhi, khi))
    decreases jhi - jlo
  {
    if jhi > jlo {
      var u, w := LowJBlock(i, jlo, jhi - 1, khi), RowB(jhi - 1, i, jhi, khi);
      LowJBlockFacts(i, jlo, jhi - 1, khi);
      RowBFacts(jhi - 1, i, jhi, khi);
      assert forall x :: x in u ==> x.a < jhi - 1;
      DistinctConcat(u, w);
      assert LowJBlock(i, jlo, jhi, khi) == u + w;
    }
  }

  lemma {:induction false} LowJBlockLength(i: int, jlo: int, jhi: int, khi: int)
    requires jlo <= jhi < khi
    ensures |LowJBlock(i, jlo, jhi, khi)| + C2(khi - jhi) == C2(khi - jlo)
    decreases jhi - jlo
  {
    if jhi > jlo {
      LowJBlockLength(i, jlo, jhi - 1, khi);
      RowBFacts(jhi - 1, i, jhi, khi);
      assert C2(khi - jhi + 1) == C2(khi - jhi) + (khi - jhi);
    }
  }

  // ---------------------------------------------------------------------
  // The 1-indexed list of the class-based solvers and the 1-indexed scripts

  /** The tables listed for student i, branch by branch as the solvers
      write them. */
  function MembershipTables(i: int, n: int): seq<Table>
    requires 1 <= i <= n
  {
    if i == 1 then
      PairsAbove(i, 2, n + 1) + LedBlock(i, 2, n, n + 1)
    else if 2 <= i <= n - 1 then
      PairsBelow(i, 1, i) + PairsAbove(i, i + 1, n + 1) + LowKBlock(i, 2, i, 1)
      + MidBlock(i, 1, i, n + 1) + LedBlock(i, i + 1, n, n + 1)
    else
      PairsBelow(i, 1, n) + LowJBlock(i, 1, n - 1, n)
  }

  /** The list of student i names every candidate table that contains i,
      and each only once. */
  lemma MembershipExact(i: int, n: int)
    requires 1 <= i <= n
    ensures forall t :: t in MembershipTables(i, n) <==> WellFormed(t, n) && i in Members(t)
    ensures Distinct(MembershipTables(i, n))
  {
    if i == 1 {
      FirstExact(n);
    } else if 2 <= i <= n - 1 {
      MiddleExact(i, n);
    } else {
      LastExact(n);
    }
  }

  lemma FirstExact(n: int)
    requires 1 <= n
    ensures forall t :: t in MembershipTables(1, n) <==> WellFormed(t, n) && 1 in Members(t)
    ensures Distinct(MembershipTables(1, n))
  {
    var p := PairsAbove(1, 2, n + 1);
    var q := LedBlock(1, 2, n, n + 1);
    assert MembershipTables(1, n) == p + q;
    PairsAboveFacts(1, 2, n + 1);
    LedBlockFacts(1, 2, n, n + 1);
    DistinctConcat(p, q);
  }

  lemma MiddleExact(i: int, n: int)
    requires 2 <= i <= n - 1
    ensures forall t :: t in MembershipTables(i, n) <==> WellFormed(t, n) && i in Members(t)
    ensures Distinct(MembershipTables(i, n))
  {
    MiddleMembers(i, n);
    MiddleDistinct(i, n);
  }

  lemma MiddleMembers(i: int, n: int)
    requires 2 <= i <= n - 1
    ensures forall t :: t in MembershipTables(i, n) <==> WellFormed(t, n) && i in Members(t)
  {
    var pairs := PairsBelow(i, 1, i) + PairsAbove(i, i + 1, n + 1);
    var triples := LowKBlock(i, 2, i, 1) + MidBlock(i, 1, i, n + 1) + LedBlock(i, i + 1, n, n + 1);
    assert MembershipTables(i, n) == pairs + triples;
    MiddlePairs(i, n);
    MiddleTriples(i, n);
  }

  lemma MiddlePairs(i: int, n: int)
    requires 2 <= i <= n - 1
    ensures forall t :: t in PairsBelow(i, 1, i) + PairsAbove(i, i + 1, n + 1) <==>
      t.Pair? && WellFormed(t, n) && i in Members(t)
  {
    PairsBelowFacts(i, 1, i);
    PairsAboveFacts(i, i + 1, n + 1);
  }

  lemma MiddleTriples(i: int, n: int)
    requires 2 <= i <= n - 1
    ensures forall t :: t in LowKBlock(i, 2, i, 1) + MidBlock(i, 1, i, n + 1) + LedBlock(i, i + 1, n, n + 1) <==>
      t.Triple? && WellFormed(t, n) && i in Members(t)
  {
    LowKBlockFacts(i, 2, i, 1);
    MidBlockFacts(i, 1, i, n + 1);
    LedBlockFacts(i, i + 1, n, n + 1);
  }

  lemma MiddleDistinct(i: int, n: int)
    requires 2 <= i <= n - 1
    ensures Distinct(MembershipTables(i, n))
  {
    var pairs := PairsBelow(i, 1, i) + PairsAbove(i, i + 1, n + 1);
    var triples := LowKBlock(i, 2, i, 1) + MidBlock(i, 1, i, n + 1) + LedBlock(i, i + 1, n, n + 1);
    assert MembershipTables(i, n) == pairs + triples;
    MiddlePairsDistinct(i, n);
    MiddleTriplesDistinct(i, n);
    PairsAndTriplesDisjoint(pairs, triples);
    DistinctConcat(pairs, triples);
  }

  lemma PairsAndTriplesDisjoint(pairs: seq<Table>, triples: seq<Table>)
    requires forall t :: t in pairs ==> t.Pair?
    requires forall t :: t in triples ==> t.Triple?
    ensures forall t :: t in pairs ==> t !in triples
  {
  }

  lemma MiddlePairsDistinct(i: int, n: int)
    ensures Distinct(PairsBelow(i, 1, i) + PairsAbove(i, i + 1, n + 1))
    ensures forall t :: t in PairsBelow(i, 1, i) + PairsAbove(i, i + 1, n + 1) ==> t.Pair?
  {
    PairsBelowFacts(i, 1, i);
    PairsAboveFacts(i, i + 1, n + 1);
    DistinctConcat(PairsBelow(i, 1, i), PairsAbove(i, i + 1, n + 1));
  }

  lemma MiddleTriplesDistinct(i: int, n: int)
    requires 2 <= i <= n - 1
    ensures Distinct(LowKBlock(i, 2, i, 1) + MidBlock(i, 1, i, n + 1) + LedBlock(i, i + 1, n, n + 1))
    ensures forall t :: t in LowKBlock(i, 2, i, 1) + MidBlock(i, 1, i, n + 1) + LedBlock(i, i + 1, n, n + 1) ==> t.Triple?
  {
    var t1 := LowKBlock(i, 2, i, 1);
    var t2 := MidBlock(i, 1, i, n + 1);
    var t3 := LedBlock(i, i + 1, n, n + 1);
    LowKBlockFacts(i, 2, i, 1);
    MidBlockFacts(i, 1, i, n + 1);
    LedBlockFacts(i, i + 1, n, n + 1);
    DistinctConcat(t1, t2);
    assert forall t: Table :: t in t1 + t2 ==> t.Triple? && (t.c == i || t.b == i);
    DistinctConcat(t1 + t2, t3);
  }

  lemma LastExact(n: int)
    requires 2 <= n
    ensures forall t :: t in MembershipTables(n, n) <==> WellFormed(t, n) && n in Members(t)
    ensures Distinct(MembershipTables(n, n))
  {
    var p := PairsBelow(n, 1, n);
    var q := LowJBlock(n, 1, n - 1, n);
    assert MembershipTables(n, n) == p + q;
    PairsBelowFacts(n, 1, n);
    LowJBlockFacts(n, 1, n - 1, n);
    DistinctConcat(p, q);
  }

  lemma {:induction false} C2Sum(x: nat, y: nat)
    ensures C2(x + y) == C2(x) + C2(y) + x * y
    decreases y
  {
    if y > 0 {
      C2Sum(x, y - 1);
      assert C2(x + y) == C2(x + y - 1) + (x + y - 1);
      assert x * y == x * (y - 1) + x;
    }
  }

  /** Every student is listed with n - 1 pairs and C(n-1, 2) triples. */
  lemma MembershipLength(i: int, n: int)
    requires 1 <= i <= n
    ensures |MembershipTables(i, n)| == (n - 1) + C2(n - 1)
  {
    if i == 1 {
      PairsAboveLength(i, 2, n + 1);
      if n >= 2 {
        LedBlockLength(i, 2, n, n + 1);
      } else {
        LedBlockFacts(i, 2, n, n + 1);
        assert LedBlock(i, 2, n, n + 1) == [];
      }
    } else if 2 <= i <= n - 1 {
      MiddleLength(i, n);
    } else {
      PairsBelowLength(i, 1, n);
      LowJBlockLength(i, 1, n - 1, n);
    }
  }

  lemma MiddleLength(i: int, n: int)
    requires 2 <= i <= n - 1
    ensures |MembershipTables(i, n)| == (n - 1) + C2(n - 1)
  {
    var p1 := PairsBelow(i, 1, i);
    var p2 := PairsAbove(i, i + 1, n + 1);
    var t1 := LowKBlock(i, 2, i, 1);
    var t2 := MidBlock(i, 1, i, n + 1);
    var t3 := LedBlock(i, i + 1, n, n + 1);
    assert MembershipTables(i, n) == p1 + p2 + t1 + t2 + t3;
    PairsBelowLength(i, 1, i);
    PairsAboveLength(i, i + 1, n + 1);
    LowKBlockLength(i, 2, i, 1);
    MidBlockLength(i, 1, i, n + 1);
    LedBlockLength(i, i + 1, n, n + 1);
    assert |MembershipTables(i, n)| == |p1| + |p2| + |t1| + |t2| + |t3|;
    MiddleSum(i, n, |p1|, |p2|, |t1|, |t2|, |t3|);
  }

  lemma MiddleSum(i: int, n: int, a: int, b: int, c: int, d: int, e: int)
    requires 2 <= i <= n - 1
    requires a == i - 1 && b == n - i && c == C2(i - 1) && d == (i - 1) * (n - i) && e == C2(n - i)
    ensures a + b + c + d + e == (n - 1) + C2(n - 1)
  {
    C2Sum(i - 1, n - i);
  }

  // ---------------------------------------------------------------------
  // All candidate tables in dictionary order: the pairs (i, j) row by row,
  // then the triples (i, j, k) row by row, for students lo..hi-1.

  /** The pairs (i, j) with lo <= i < m and i < j < hi. */
  function PairsUpTo(lo: int, m: int, hi: int): seq<Table>
    decreases m - lo
  {
    if m <= lo then [] else PairsUpTo(lo, m - 1, hi) + PairsAbove(m - 1, m, hi)
  }

  /** The triples (i, j, k) with lo <= i < m and i < j < k < hi. */
  function TriplesUpTo(lo: int, m: int, hi: int): seq<Table>
    decreases m - lo
  {
    if m <= lo then [] else TriplesUpTo(lo, m - 1, hi) + LedBlock(m - 1, m, hi, hi)
  }

  lemma {:induction false} PairsUpToFacts(lo: int, m: int, hi: int)
    requires lo <= m <= hi
    ensures forall t :: t in PairsUpTo(lo, m, hi) <==> t.Pair? && lo <= t.a < m && t.a < t.b < hi
    ensures Distinct(PairsUpTo(lo, m, hi))
    decreases m - lo
  {
    if m > lo {
      PairsUpToFacts(lo, m - 1, hi);
      PairsAboveFacts(m - 1, m, hi);
      DistinctConcat(PairsUpTo(lo, m - 1, hi), PairsAbove(m - 1, m, hi));
    }
  }

  lemma {:induction false} PairsAboveLength(i: int, lo: int, hi: int)
    requires lo <= hi
    ensures |PairsAbove(i, lo, hi)| == hi - lo
    decreases hi - lo
  {
    if lo < hi {
      PairsAboveLength(i, lo, hi - 1);
    }
  }

  /** PairsBelow(i, lo, hi) holds hi - lo pairs. */
  lemma {:induction false} PairsBelowLength(i: int, lo: int, hi: int)
    requires lo <= hi
    ensures |PairsBelow(i, lo, hi)| == hi - lo
    decreases hi - lo
  {
    if lo < hi {
      PairsBelowLength(i, lo, hi - 1);
    }
  }

  lemma {:induction false} RowCLength(a: int, b: int, lo: int, hi: int)
    requires lo <= hi
    ensures |RowC(a, b, lo, hi)| == hi - lo
    decreases hi - lo
  {
    if lo < hi {
      RowCLength(a, b, lo, hi - 1);
    }
  }

  lemma {:induction false} MidBlockLength(i: int, jlo: int, jhi: int, khi: int)
    requires jlo <= jhi && i < khi
    ensures |MidBlock(i, jlo, jhi, khi)| == (jhi - jlo) * (khi - i - 1)
    decreases jhi - jlo
  {
    if jhi > jlo {
      MidBlockLength(i, jlo, jhi - 1, khi);
      RowCLength(jhi - 1, i, i + 1, khi);
      assert (jhi - jlo) * (khi - i - 1) == (jhi - 1 - jlo) * (khi - i - 1) + (khi - i - 1);
    }
  }

  lemma {:induction false} PairsUpToLength(lo: int, m: int, hi: int)
    requires lo <= m <= hi
    ensures |PairsUpTo(lo, m, hi)| + C2(hi - m) == C2(hi - lo)
    decreases m - lo
  {
    if m > lo {
      PairsUpToLength(lo, m - 1, hi);
      PairsAboveLength(m - 1, m, hi);
      assert C2(hi - m + 1) == C2(hi - m) + (hi - m);
    }
  }

  lemma {:induction false} TriplesUpToFacts(lo: int, m: int, hi: int)
    requires lo <= m <= hi
    ensures forall t :: t in TriplesUpTo(lo, m, hi) <==>
      t.Triple? && lo <= t.a < m && t.a < t.b < t.c < hi
    ensures Distinct(TriplesUpTo(lo, m, hi))
    decreases m - lo
  {
    if m > lo {
      TriplesUpToFacts(lo, m - 1, hi);
      LedBlockFacts(m - 1, m, hi, hi);
      DistinctConcat(TriplesUpTo(lo, m - 1, hi), LedBlock(m - 1, m, hi, hi));
    }
  }

  lemma {:induction false} TriplesUpToLength(lo: int, m: int, hi: int)
    requires lo <= m <= hi
    ensures |TriplesUpTo(lo, m, hi)| + C3(hi - m) == C3(hi - lo)
    decreases m - lo
  {
    if m > lo {
      TriplesUpToLength(lo, m - 1, hi);
      var row := LedBlock(m - 1, m, hi, hi);
      if m < hi {
        assert row == LedBlock(m - 1, m, hi - 1, hi) by {
          RowCFacts(m - 1, hi - 1, hi, hi);
        }
        LedBlockLength(m - 1, m, hi - 1, hi);
      }
      assert C3(hi - m + 1) == C3(hi - m) + C2(hi - m);
    }
  }

  /** The candidate tables of n students numbered 1..n, in the order of
      the pair dictionary followed by the triple dictionary. */
  function Candidates(n: nat): seq<Table>
  {
    PairsUpTo(1, n + 1, n + 1) + TriplesUpTo(1, n + 1, n + 1)
  }

  lemma CandidatesFacts(n: nat)
    ensures forall t :: t in Candidates(n) <==> WellFormed(t, n)
    ensures Distinct(Candidates(n))
    ensures |PairsUpTo(1, n + 1, n + 1)| == C2(n)
    ensures |TriplesUpTo(1, n + 1, n + 1)| == C3(n)
  {
    CandidatesMembers(n);
    CandidatesDistinct(n);
    PairsUpToLength(1, n + 1, n + 1);
    TriplesUpToLength(1, n + 1, n + 1);
  }

  lemma CandidatesMembers(n: nat)
    ensures forall t :: t in Candidates(n) <==> WellFormed(t, n)
  {
    PairsUpToFacts(1, n + 1, n + 1);
    TriplesUpToFacts(1, n + 1, n + 1);
  }

  lemma CandidateKinds(n: nat)
    ensures forall t :: t in PairsUpTo(1, n + 1, n + 1) ==> t.Pair?
    ensures forall t :: t in TriplesUpTo(1, n + 1, n + 1) ==> t.Triple?
  {
    PairsUpToFacts(1, n + 1, n + 1);
    TriplesUpToFacts(1, n + 1, n + 1);
  }

  lemma CandidatesDistinct(n: nat)
    ensures Distinct(Candidates(n))
  {
    var pairs, triples := PairsUpTo(1, n + 1, n + 1), TriplesUpTo(1, n + 1, n + 1);
    PairsUpToFacts(1, n + 1, n + 1);
    TriplesUpToFacts(1, n + 1, n + 1);
    PairsAndTriplesDisjoint(pairs, triples);
    DistinctConcat(pairs, triples);
  }


  // ---------------------------------------------------------------------
  // From tables to variable ids

  /** The ids of the tables ts, looked up in the variable dictionaries. */
  function IdsOf(ids: map<Var, int>, ts: seq<Table>): (r: seq<int>)
    requires forall t :: t in ts ==> X(t) in ids
    ensures |r| == |ts| && forall p :: 0 <= p < |ts| ==> r[p] == ids[X(ts[p])]
  {
    if ts == [] then [] else IdsOf(ids, ts[..|ts| - 1]) + [ids[X(ts[|ts| - 1])]]
  }
}
