/** Tables, seat flags and the interleaved variable numbering shared by the
    class-based TCPC solvers. Students are numbered 1..n; a table is a pair or
    a triple of students written in increasing order. */
module Tables {

  datatype Table = Pair(a: int, b: int) | Triple(a: int, b: int, c: int)

  /** A propositional variable of the model: "table t is used" or
      "student s sits at a two-seat table". */
  datatype Var = X(t: Table) | Y(s: int)

  function Members(t: Table): set<int>
  {
    match t
    case Pair(a, b) => {a, b}
    case Triple(a, b, c) => {a, b, c}
  }

  function Size(t: Table): nat
  {
    if t.Pair? then 2 else 3
  }

  /** Every member lies in lo..hi and the members are strictly increasing. */
  predicate InRange(t: Table, lo: int, hi: int)
  {
    match t
    case Pair(a, b) => lo <= a < b <= hi
    case Triple(a, b, c) => lo <= a < b < c <= hi
  }

  /** A candidate table of the 1-indexed solvers. */
  predicate WellFormed(t: Table, n: int)
  {
    InRange(t, 1, n)
  }

  predicate ValidVar(v: Var, n: int)
  {
    match v
    case X(t) => WellFormed(t, n)
    case Y(s) => 1 <= s <= n
  }

  /** The student whose outer loop iteration creates the variable. */
  function Lead(v: Var): int
  {
    match v
    case X(t) => t.a
    case Y(s) => s
  }

  lemma MembersOfInRange(t: Table, lo: int, hi: int)
    requires InRange(t, lo, hi)
    ensures |Members(t)| == Size(t)
    ensures forall s :: s in Members(t) ==> lo <= s <= hi
  {
    match t
    case Pair(a, b) =>
      assert Members(t) == {a} + {b};
    case Triple(a, b, c) =>
      assert Members(t) == {a} + {b} + {c};
  }

  // ---------------------------------------------------------------------
  // Binomial coefficients C(m, 2) and C(m, 3) by Pascal's rule

  function C2(m: nat): nat
  {
    if m == 0 then 0 else C2(m - 1) + (m - 1)
  }

  function C3(m: nat): nat
  {
    if m == 0 then 0 else C3(m - 1) + C2(m - 1)
  }

  lemma {:induction false} C2Closed(m: nat)
    ensures 2 * C2(m) == m * (m - 1)
  {
    if m > 0 {
      C2Closed(m - 1);
    }
  }

  lemma {:induction false} C3Closed(m: nat)
    ensures 6 * C3(m) == m * (m - 1) * (m - 2)
  {
    if m > 0 {
      C3Closed(m - 1);
      C2Closed(m - 1);
      assert 6 * C3(m) == (m - 1) * (m - 2) * (m - 3) + 3 * ((m - 1) * (m - 2));
    }
  }

  // ---------------------------------------------------------------------
  // Sequences and duplicate-freedom

  predicate Distinct<T(==)>(s: seq<T>)
  {
    forall p, q :: 0 <= p < q < |s| ==> s[p] != s[q]
  }

  lemma DistinctConcat<T>(u: seq<T>, w: seq<T>)
    requires Distinct(u) && Distinct(w)
    requires forall x :: x in u ==> x !in w
    ensures Distinct(u + w)
  {
    forall p, q | 0 <= p < q < |u + w|
      ensures (u + w)[p] != (u + w)[q]
    {
      if p < |u| && |u| <= q {
        assert (u + w)[p] in u;
        assert (u + w)[q] == w[q - |u|];
      }
    }
  }

  // ---------------------------------------------------------------------
  // The interleaved creation order of the class-based solvers: for each
  // student i, the pairs (i, j) with j > i, then the triples (i, j, k) with
  // i < j < k, then the seat flag of i. Every sequence grows at its end, as
  // the loops that create the variables do.

  /** X(Pair(i, j)) for i < j < hi. */
  function PairRow(i: int, hi: int): seq<Var>
    decreases hi - i
  {
    if hi <= i + 1 then [] else PairRow(i, hi - 1) + [X(Pair(i, hi - 1))]
  }

  /** X(Triple(i, j, k)) for j < k < hi. */
  function TripleRow(i: int, j: int, hi: int): seq<Var>
    decreases hi - j
  {
    if hi <= j + 1 then [] else TripleRow(i, j, hi - 1) + [X(Triple(i, j, hi - 1))]
  }

  /** The rows TripleRow(i, j, n + 1) for i < j < jhi. */
  function TripleBlock(i: int, jhi: int, n: int): seq<Var>
    decreases jhi - i
  {
    if jhi <= i + 1 then [] else TripleBlock(i, jhi - 1, n) + TripleRow(i, jhi - 1, n + 1)
  }

  /** Everything created in the outer iteration for student i. */
  function Block(i: int, n: int): seq<Var>
  {
    PairRow(i, n + 1) + TripleBlock(i, n + 1, n) + [Y(i)]
  }

  /** The blocks of students 1..m. */
  function Interleaved(m: nat, n: int): seq<Var>
  {
    if m == 0 then [] else Interleaved(m - 1, n) + Block(m, n)
  }

  /** All variables of an instance with n students, in creation order. */
  function VarOrder(n: nat): seq<Var>
  {
    Interleaved(n, n)
  }

  lemma {:induction false} PairRowFacts(i: int, hi: int)
    ensures forall v :: v in PairRow(i, hi) <==> v.X? && v.t.Pair? && v.t.a == i && i < v.t.b < hi
    ensures Distinct(PairRow(i, hi))
    ensures |PairRow(i, hi)| == if hi <= i + 1 then 0 else hi - i - 1
    decreases hi - i
  {
    if hi > i + 1 {
      PairRowFacts(i, hi - 1);
      DistinctConcat(PairRow(i, hi - 1), [X(Pair(i, hi - 1))]);
    }
  }

  lemma {:induction false} TripleRowFacts(i: int, j: int, hi: int)
    ensures forall v :: v in TripleRow(i, j, hi) <==>
      v.X? && v.t.Triple? && v.t.a == i && v.t.b == j && j < v.t.c < hi
    ensures Distinct(TripleRow(i, j, hi))
    ensures |TripleRow(i, j, hi)| == if hi <= j + 1 then 0 else hi - j - 1
    decreases hi - j
  {
    if hi > j + 1 {
      TripleRowFacts(i, j, hi - 1);
      DistinctConcat(TripleRow(i, j, hi - 1), [X(Triple(i, j, hi - 1))]);
    }
  }

  lemma {:induction false} TripleBlockFacts(i: int, jhi: int, n: int)
    requires jhi <= n + 1
    ensures forall v :: v in TripleBlock(i, jhi, n) <==>
      v.X? && v.t.Triple? && v.t.a == i && i < v.t.b < jhi && v.t.b < v.t.c <= n
    ensures Distinct(TripleBlock(i, jhi, n))
    ensures i + 1 <= jhi ==> |TripleBlock(i, jhi, n)| + C2(n + 1 - jhi) == C2(n - i)
    decreases jhi - i
  {
    if jhi > i + 1 {
      TripleBlockFacts(i, jhi - 1, n);
      TripleRowFacts(i, jhi - 1, n + 1);
      DistinctConcat(TripleBlock(i, jhi - 1, n), TripleRow(i, jhi - 1, n + 1));
    }
  }

  lemma {:induction false} BlockFacts(i: int, n: int)
    requires 1 <= i <= n
    ensures forall v :: v in Block(i, n) <==> ValidVar(v, n) && Lead(v) == i
    ensures Distinct(Block(i, n))
    ensures |Block(i, n)| == (n - i) + C2(n - i) + 1
  {
    PairRowFacts(i, n + 1);
    TripleBlockFacts(i, n + 1, n);
    DistinctConcat(PairRow(i, n + 1), TripleBlock(i, n + 1, n));
    DistinctConcat(PairRow(i, n + 1) + TripleBlock(i, n + 1, n), [Y(i)]);
  }

  /** The creation order lists every variable of the instance exactly once,
      and there are C(n,2) + C(n,3) + n of them. */
  lemma {:induction false} InterleavedFacts(m: nat, n: int)
    requires m <= n
    ensures forall v :: v in Interleaved(m, n) <==> ValidVar(v, n) && Lead(v) <= m
    ensures Distinct(Interleaved(m, n))
    ensures |Interleaved(m, n)| + C2(n - m) + C3(n - m) == C2(n) + C3(n) + m
  {
    if m > 0 {
      InterleavedFacts(m - 1, n);
      BlockFacts(m, n);
      DistinctConcat(Interleaved(m - 1, n), Block(m, n));
      assert C2(n - m + 1) == C2(n - m) + (n - m);
      assert C3(n - m + 1) == C3(n - m) + C2(n - m);
    }
  }

  lemma VarOrderFacts(n: nat)
    ensures forall v :: v in VarOrder(n) <==> ValidVar(v, n)
    ensures Distinct(VarOrder(n))
    ensures |VarOrder(n)| == C2(n) + C3(n) + n
  {
    InterleavedFacts(n, n);
    forall v | ValidVar(v, n) ensures Lead(v) <= n {
    }
  }

  // ---------------------------------------------------------------------
  // Numbering by a counter that starts at 1

  /** The ids a counter starting at 1 hands out to the entries of s, in order. */
  function Numbering<T(==)>(s: seq<T>): map<T, int>
  {
    if s == [] then map[] else Numbering(s[..|s| - 1])[s[|s| - 1] := |s|]
  }

  lemma {:induction false} NumberingFacts<T>(s: seq<T>)
    requires Distinct(s)
    ensures forall x :: x in Numbering(s) ==> x in s
    ensures forall p :: 0 <= p < |s| ==> s[p] in Numbering(s) && Numbering(s)[s[p]] == p + 1
  {
    if s != [] {
      var init := s[..|s| - 1];
      assert Distinct(init);
      NumberingFacts(init);
      forall p | 0 <= p < |s| ensures Numbering(s)[s[p]] == p + 1 {
        if p < |s| - 1 {
          assert s[p] == init[p] && s[p] != s[|s| - 1];
        }
      }
      forall x | x in Numbering(s) ensures x in s {
        if x != s[|s| - 1] {
          assert x in Numbering(init);
        }
      }
    }
  }

  /** Different entries of a duplicate-free sequence get different ids. */
  lemma NumberingOneToOne<T>(s: seq<T>)
    requires Distinct(s)
    ensures forall x, y :: x in Numbering(s) && y in Numbering(s) && Numbering(s)[x] == Numbering(s)[y] ==> x == y
  {
    NumberingBijection(s);
  }

  /** Numbering a duplicate-free sequence is a bijection between its entries
      and 1..|s|. */
  lemma NumberingBijection<T>(s: seq<T>)
    requires Distinct(s)
    ensures forall x :: x in Numbering(s) ==> 1 <= Numbering(s)[x] <= |s| && s[Numbering(s)[x] - 1] == x
    ensures forall p :: 0 <= p < |s| ==> s[p] in Numbering(s) && Numbering(s)[s[p]] == p + 1
  {
    NumberingFacts(s);
    forall x | x in Numbering(s)
      ensures 1 <= Numbering(s)[x] <= |s| && s[Numbering(s)[x] - 1] == x
    {
      assert x in s;
      var p :| 0 <= p < |s| && s[p] == x;
    }
  }

  /** The counter hands the next id to an appended entry. */
  lemma NumberingSnoc<T>(s: seq<T>, v: T)
    ensures Numbering(s + [v]) == Numbering(s)[v := |s| + 1]
  {
    assert (s + [v])[..|s + [v]| - 1] == s;
  }

  /** m with the entries of vs handed the ids c, c + 1, ... in order: the
      counter going on from c. */
  function NumberFrom(m: map<Var, int>, c: int, vs: seq<Var>): map<Var, int>
  {
    if vs == [] then m else NumberFrom(m, c, vs[..|vs| - 1])[vs[|vs| - 1] := c + |vs| - 1]
  }

  lemma NumberFromSnoc(m: map<Var, int>, c: int, vs: seq<Var>, v: Var)
    ensures NumberFrom(m, c, vs + [v]) == NumberFrom(m, c, vs)[v := c + |vs|]
  {
    assert (vs + [v])[..|vs|] == vs;
  }

  /** Counting on through u and then through w is counting through u + w. */
  lemma {:induction false} NumberFromConcat(m: map<Var, int>, c: int, u: seq<Var>, w: seq<Var>)
    ensures NumberFrom(NumberFrom(m, c, u), c + |u|, w) == NumberFrom(m, c, u + w)
  {
    if w == [] {
      assert u + w == u;
    } else {
      var init := w[..|w| - 1];
      NumberFromConcat(m, c, u, init);
      assert (u + w)[..|u + w| - 1] == u + init;
    }
  }

  /** The counter starting at 1 is NumberFrom on the empty map. */
  lemma {:induction false} NumberingFrom(s: seq<Var>)
    ensures Numbering(s) == NumberFrom(map[], 1, s)
  {
    if s != [] {
      NumberingFrom(s[..|s| - 1]);
    }
  }

  /** A counter loop that started at count c on top of the ids of m and
      has handed out the ids of vs in order: ids holds them and count is
      the next id. */
  predicate Counted(ids: map<Var, int>, count: int, m: map<Var, int>, c: int, vs: seq<Var>)
  {
    ids == NumberFrom(m, c, vs) && count == c + |vs|
  }

  /** One more variable v gets the next id. */
  lemma CountedSnoc(ids: map<Var, int>, count: int, m: map<Var, int>, c: int, vs: seq<Var>, v: Var, vs': seq<Var>)
    requires Counted(ids, count, m, c, vs) && vs' == vs + [v]
    ensures Counted(ids[v := count], count + 1, m, c, vs')
  {
    NumberFromSnoc(m, c, vs, v);
  }

  /** A loop that counts on through w after one that counted through u has
      counted through u + w. */
  lemma CountedConcat(ids0: map<Var, int>, count0: int, ids: map<Var, int>, count: int, m: map<Var, int>, c: int,
                      u: seq<Var>, w: seq<Var>, uw: seq<Var>)
    requires Counted(ids0, count0, m, c, u) && Counted(ids, count, ids0, count0, w) && uw == u + w
    ensures Counted(ids, count, m, c, uw)
  {
    NumberFromConcat(m, c, u, w);
  }

  /** Counting from 1 on an empty map is Numbering. */
  lemma CountedNumbering(ids: map<Var, int>, count: int, s: seq<Var>)
    requires Counted(ids, count, map[], 1, s)
    ensures ids == Numbering(s) && count == |s| + 1
  {
    NumberingFrom(s);
  }

  /** A duplicate-free sequence numbers as many keys as it has entries. */
  lemma {:induction false} NumberingSize<T>(s: seq<T>)
    requires Distinct(s)
    ensures |Numbering(s)| == |s|
  {
    if s != [] {
      var init := s[..|s| - 1];
      assert Distinct(init);
      NumberingSize(init);
      NumberingFacts(init);
      assert s[|s| - 1] !in init;
    }
  }
}
