/** Preference weights of candidate tables and the seat-count bound.

    Weights are kept in EIGHTHS so that every value is an integer: a pair
    weight 2*wi*wj is 16*wi*wj eighths and a triple weight 3*wi*wj*wk/8 is
    3*wi*wj*wk eighths. The full weight of a pair (2) is 16 and of a triple
    (3) is 24. */
module Weights {
  import opened Tables

  /** Each student's list of preferred classmates. */
  type Prefs = map<int, seq<int>>

  /** The list of s, or the empty list when s has none. */
  function Get(prefs: Prefs, s: int): seq<int>
  {
    if s in prefs then prefs[s] else []
  }

  /** How many entries of xs lie in group (duplicates counted each time). */
  function CountIn(xs: seq<int>, group: set<int>): nat
  {
    if xs == [] then 0
    else CountIn(xs[..|xs| - 1], group) + (if xs[|xs| - 1] in group then 1 else 0)
  }

  function Ind(b: bool): nat
  {
    if b then 1 else 0
  }

  // ---------------------------------------------------------------------
  // Occurrence-count weights: for each member v, wv counts the entries of
  // v's list that lie in the table (a student missing from prefs has none).

  function PairWeight(prefs: Prefs, i: int, j: int): int
  {
    16 * CountIn(Get(prefs, i), {i, j}) * CountIn(Get(prefs, j), {i, j})
  }

  function TripleWeight(prefs: Prefs, i: int, j: int, k: int): int
  {
    var g := {i, j, k};
    3 * CountIn(Get(prefs, i), g) * CountIn(Get(prefs, j), g) * CountIn(Get(prefs, k), g)
  }

  function Weight(prefs: Prefs, t: Table): int
  {
    match t
    case Pair(i, j) => PairWeight(prefs, i, j)
    case Triple(i, j, k) => TripleWeight(prefs, i, j, k)
  }

  /** The weight of a table whose members all want each other: 2 for a pair,
      3 for a triple, that is its number of seats. */
  function FullWeight(t: Table): nat
  {
    8 * Size(t)
  }

  /** The deficiency of a table in the minimizing encodings: 2 - w or 3 - w. */
  function Deficiency(prefs: Prefs, t: Table): int
  {
    FullWeight(t) - Weight(prefs, t)
  }

  /** No weight is negative. */
  lemma WeightNonNegative(prefs: Prefs, t: Table)
    ensures Weight(prefs, t) >= 0
  {
    match t
    case Pair(i, j) =>
      var a, b := CountIn(Get(prefs, i), {i, j}), CountIn(Get(prefs, j), {i, j});
      assert a * b >= 0;
    case Triple(i, j, k) =>
      var g := {i, j, k};
      var a, b, c := CountIn(Get(prefs, i), g), CountIn(Get(prefs, j), g), CountIn(Get(prefs, k), g);
      assert a * b >= 0;
      assert a * b * c >= 0;
  }

  // ---------------------------------------------------------------------
  // Well-formed preference lists, as the data generator produces them:
  // nobody lists themself and nobody is listed twice.

  predicate ValidList(s: int, xs: seq<int>)
  {
    s !in xs && Distinct(xs)
  }

  predicate ValidPrefs(prefs: Prefs)
  {
    forall s :: s in prefs ==> ValidList(s, prefs[s])
  }

  lemma {:induction false} CountInSplit(xs: seq<int>, g: set<int>, h: set<int>)
    requires g * h == {}
    ensures CountIn(xs, g + h) == CountIn(xs, g) + CountIn(xs, h)
  {
    if xs != [] {
      var x := xs[|xs| - 1];
      CountInSplit(xs[..|xs| - 1], g, h);
      assert x !in g * h;
    }
  }

  /** Counting a single value in a list without duplicates gives 0 or 1. */
  lemma {:induction false} CountInSingle(xs: seq<int>, x: int)
    requires Distinct(xs)
    ensures CountIn(xs, {x}) == Ind(x in xs)
  {
    if xs != [] {
      var init := xs[..|xs| - 1];
      assert Distinct(init);
      CountInSingle(init, x);
      assert xs == init + [xs[|xs| - 1]];
      if xs[|xs| - 1] == x {
        assert x !in init by {
          forall p | 0 <= p < |init| ensures init[p] != x {
            assert init[p] == xs[p];
          }
        }
      }
    }
  }

  lemma CountInEmptyGroup(xs: seq<int>)
    ensures CountIn(xs, {}) == 0
  {
    if xs != [] {
      CountInEmptyGroup(xs[..|xs| - 1]);
    }
  }

  /** For a well-formed list of student s, counting the entries that lie in
      a table containing s counts the other members s lists, each once. */
  lemma CountInPair(s: int, xs: seq<int>, x: int)
    requires ValidList(s, xs) && x != s
    ensures CountIn(xs, {s, x}) == Ind(x in xs)
    ensures CountIn(xs, {x, s}) == Ind(x in xs)
  {
    CountInSplit(xs, {s}, {x});
    CountInSingle(xs, s);
    CountInSingle(xs, x);
    assert {s} + {x} == {s, x} == {x, s};
  }

  lemma CountInTriple(s: int, xs: seq<int>, x: int, y: int)
    requires ValidList(s, xs) && x != s && y != s && x != y
    ensures CountIn(xs, {s, x, y}) == Ind(x in xs) + Ind(y in xs)
  {
    CountInPair(s, xs, x);
    CountInSplit(xs, {s, x}, {y});
    CountInSingle(xs, y);
    assert {s, x} + {y} == {s, x, y};
  }

  lemma ValidGet(prefs: Prefs, s: int)
    requires ValidPrefs(prefs)
    ensures ValidList(s, Get(prefs, s))
  {
  }

  /** With well-formed lists a pair weighs 0 or 2, and 2 exactly when the two
      students list each other. */
  lemma PairWeightRange(prefs: Prefs, i: int, j: int)
    requires ValidPrefs(prefs) && i != j
    ensures PairWeight(prefs, i, j) == 16 * Ind(j in Get(prefs, i)) * Ind(i in Get(prefs, j))
    ensures PairWeight(prefs, i, j) == 0 || PairWeight(prefs, i, j) == 16
    ensures PairWeight(prefs, i, j) == 16 <==> j in Get(prefs, i) && i in Get(prefs, j)
  {
    ValidGet(prefs, i);
    ValidGet(prefs, j);
    CountInPair(i, Get(prefs, i), j);
    CountInPair(j, Get(prefs, j), i);
  }

  /** The number of other members of a triple that v lists. */
  function Liked(prefs: Prefs, v: int, x: int, y: int): nat
  {
    Ind(x in Get(prefs, v)) + Ind(y in Get(prefs, v))
  }

  /** With well-formed lists a triple weighs 3p/8 for some p in 0..8, and the
      full 3 exactly when every member lists both others. */
  lemma TripleWeightRange(prefs: Prefs, i: int, j: int, k: int)
    requires ValidPrefs(prefs) && i != j && j != k && i != k
    ensures TripleWeight(prefs, i, j, k) ==
      3 * (Liked(prefs, i, j, k) * Liked(prefs, j, i, k) * Liked(prefs, k, i, j))
    ensures exists p :: 0 <= p <= 8 && TripleWeight(prefs, i, j, k) == 3 * p
    ensures 0 <= TripleWeight(prefs, i, j, k) <= 24
    ensures TripleWeight(prefs, i, j, k) == 24 <==>
      j in Get(prefs, i) && k in Get(prefs, i) && i in Get(prefs, j) &&
      k in Get(prefs, j) && i in Get(prefs, k) && j in Get(prefs, k)
  {
    ValidGet(prefs, i);
    ValidGet(prefs, j);
    ValidGet(prefs, k);
    CountInTriple(i, Get(prefs, i), j, k);
    CountInTriple(j, Get(prefs, j), i, k);
    CountInTriple(k, Get(prefs, k), i, j);
    assert {j, i, k} == {i, j, k} && {k, i, j} == {i, j, k};
    var a, b, c := Liked(prefs, i, j, k), Liked(prefs, j, i, k), Liked(prefs, k, i, j);
    var g := {i, j, k};
    assert CountIn(Get(prefs, i), g) == a;
    assert CountIn(Get(prefs, j), g) == b;
    assert CountIn(Get(prefs, k), g) == c;
    assert TripleWeight(prefs, i, j, k) == 3 * a * b * c;
    Regroup(a, b, c);
    ProductOfSmall(a, b, c);
  }

  lemma Regroup(a: int, b: int, c: int)
    ensures 3 * a * b * c == 3 * (a * b * c)
  {
  }

  lemma ProductOfSmall(a: nat, b: nat, c: nat)
    requires a <= 2 && b <= 2 && c <= 2
    ensures 0 <= a * b * c <= 8
    ensures a * b * c == 8 <==> a == 2 && b == 2 && c == 2
  {
  }

  /** With well-formed lists no table weighs more than its seat count, so every
      deficiency is non-negative and zero exactly for a fully satisfied table. */
  lemma WeightAtMostFull(prefs: Prefs, t: Table, n: int)
    requires ValidPrefs(prefs) && WellFormed(t, n)
    ensures 0 <= Weight(prefs, t) <= FullWeight(t)
    ensures 0 <= Deficiency(prefs, t) <= FullWeight(t)
  {
    match t
    case Pair(i, j) => PairWeightRange(prefs, i, j);
    case Triple(i, j, k) => TripleWeightRange(prefs, i, j, k);
  }

  /** Occurrence counting can exceed the full weight once a list repeats an
      entry: student 1 listing 2 twice makes the pair (1, 2) weigh 4. */
  lemma DuplicateEntryInflatesWeight()
    ensures PairWeight(map[1 := [2, 2], 2 := [1]], 1, 2) == 32
    ensures !ValidPrefs(map[1 := [2, 2], 2 := [1]])
  {
    var prefs := map[1 := [2, 2], 2 := [1]];
    assert Get(prefs, 1) == [2, 2];
    assert [2, 2][..1] == [2];
    assert CountIn([2, 2], {1, 2}) == 2;
    assert [1][..0] == [];
    assert CountIn([1], {1, 2}) == 1;
    assert !Distinct(prefs[1]) by {
      assert prefs[1][0] == prefs[1][1];
    }
  }

  // ---------------------------------------------------------------------
  // Set-membership weights of the 0-indexed scripts and the CP-SAT
  // minimizing objective: each member of a table counts the OTHER members
  // it lists, ignoring repeats. The scripts index preferences[v] directly;
  // that every member has a list is required where they do so, and here a
  // missing list reads as empty.

  /** len(others & set(xs)) */
  function Overlap(xs: seq<int>, others: set<int>): nat
  {
    |others * (set x | x in xs)|
  }

  function SetPairWeight(prefs: Prefs, i: int, j: int): int
  {
    16 * Ind(j in Get(prefs, i)) * Ind(i in Get(prefs, j))
  }

  function SetTripleWeight(prefs: Prefs, i: int, j: int, k: int): int
  {
    3 * (Overlap(Get(prefs, i), {j, k}) * Overlap(Get(prefs, j), {i, k}) * Overlap(Get(prefs, k), {i, j}))
  }

  function SetWeight(prefs: Prefs, t: Table): int
  {
    match t
    case Pair(i, j) => SetPairWeight(prefs, i, j)
    case Triple(i, j, k) => SetTripleWeight(prefs, i, j, k)
  }

  lemma OverlapTwo(xs: seq<int>, x: int, y: int)
    requires x != y
    ensures Overlap(xs, {x, y}) == Ind(x in xs) + Ind(y in xs)
  {
    var e := set z | z in xs;
    var both := {x, y} * e;
    if x in xs && y in xs {
      assert both == {x, y};
    } else if x in xs {
      assert both == {x};
    } else if y in xs {
      assert both == {y};
    } else {
      assert both == {};
    }
  }

  /** For any lists at all, a set-membership pair weighs 0 or 2, and 2
      exactly when the two list each other. */
  lemma SetPairWeightRange(prefs: Prefs, i: int, j: int)
    ensures SetPairWeight(prefs, i, j) == 0 || SetPairWeight(prefs, i, j) == 16
    ensures SetPairWeight(prefs, i, j) == 16 <==> j in Get(prefs, i) && i in Get(prefs, j)
  {
  }

  /** For any lists at all, a set-membership triple weighs 3p/8 with p in
      0..8: repeated entries and self-entries do not change it. */
  lemma SetTripleWeightRange(prefs: Prefs, i: int, j: int, k: int)
    requires i != j && j != k && i != k
    ensures SetTripleWeight(prefs, i, j, k) ==
      3 * (Liked(prefs, i, j, k) * Liked(prefs, j, i, k) * Liked(prefs, k, i, j))
    ensures 0 <= SetTripleWeight(prefs, i, j, k) <= 24
    ensures SetTripleWeight(prefs, i, j, k) % 3 == 0
  {
    OverlapTwo(Get(prefs, i), j, k);
    OverlapTwo(Get(prefs, j), i, k);
    OverlapTwo(Get(prefs, k), i, j);
    var a, b, c := Liked(prefs, i, j, k), Liked(prefs, j, i, k), Liked(prefs, k, i, j);
    assert Overlap(Get(prefs, i), {j, k}) == a;
    assert Overlap(Get(prefs, j), {i, k}) == b;
    assert Overlap(Get(prefs, k), {i, j}) == c;
    ProductOfSmall(a, b, c);
    TimesThree(a, b, c);
  }

  lemma TimesThree(a: int, b: int, c: int)
    ensures (3 * (a * b * c)) % 3 == 0
  {
    var p := a * b * c;
    assert (3 * p) % 3 == 0;
  }

  /** Every set-membership weight of a table in range lies between 0 and the
      table's seat count. */
  lemma SetWeightAtMostFull(prefs: Prefs, t: Table, lo: int, hi: int)
    requires InRange(t, lo, hi)
    ensures 0 <= SetWeight(prefs, t) <= FullWeight(t)
  {
    match t
    case Pair(i, j) => SetPairWeightRange(prefs, i, j);
    case Triple(i, j, k) => SetTripleWeightRange(prefs, i, j, k);
  }

  /** Three factors of at most 2 multiply to a power of two up to 8, or 0. */
  lemma ProductOfSmallValues(a: nat, b: nat, c: nat)
    requires a <= 2 && b <= 2 && c <= 2
    ensures a * b * c in {0, 1, 2, 4, 8}
  {
    if a == 0 || b == 0 || c == 0 {
      assert a * b * c == 0;
    } else {
      assert a * b <= 4 by { assert a * b <= 2 * b; }
      if a == 1 && b == 1 {
        assert a * b * c == c;
      } else if a == 1 || b == 1 {
        assert a * b == 2;
        assert a * b * c == 2 * c;
      } else {
        assert a * b == 4;
        assert a * b * c == 4 * c;
      }
    }
  }

  /** For any lists at all, a table's set weight leaves a deficiency of
      0 or 2 for a pair and one of 0, 3/2, 9/4, 21/8 or 3 for a triple
      (in eighths 0, 12, 18, 21, 24). */
  lemma SetDeficiencyValues(prefs: Prefs, t: Table, lo: int, hi: int)
    requires InRange(t, lo, hi)
    ensures var d := FullWeight(t) - SetWeight(prefs, t);
      if t.Pair? then d == 0 || d == 16 else d in {0, 12, 18, 21, 24}
  {
    match t
    case Pair(i, j) => SetPairWeightRange(prefs, i, j);
    case Triple(i, j, k) =>
      SetTripleWeightRange(prefs, i, j, k);
      ProductOfSmallValues(Liked(prefs, i, j, k), Liked(prefs, j, i, k), Liked(prefs, k, i, j));
  }

  /** On well-formed lists the two ways of weighing agree. */
  lemma SetWeightsAgree(prefs: Prefs, t: Table, lo: int, hi: int)
    requires ValidPrefs(prefs) && InRange(t, lo, hi)
    ensures SetWeight(prefs, t) == Weight(prefs, t)
  {
    match t
    case Pair(i, j) =>
      PairWeightRange(prefs, i, j);
    case Triple(i, j, k) =>
      TripleWeightRange(prefs, i, j, k);
      SetTripleWeightRange(prefs, i, j, k);
  }

  // ---------------------------------------------------------------------
  // Seat-count bounds on the number of students at two-seat tables

  /** int(N * 4 / 7): for N >= 0 the float quotient truncates to the floor. */
  function SeatBound(n: nat): (r: nat)
    ensures 7 * r <= 4 * n < 7 * (r + 1)
  {
    (n * 4) / 7
  }

  /** (N // 7) * 4, as written in the 0-indexed scripts. */
  function GroupedSeatBound(n: nat): (r: nat)
    ensures r % 4 == 0 && r <= SeatBound(n)
  {
    (n / 7) * 4
  }

  /** The two bounds agree on class sizes that are multiples of 7, the only
      sizes the data generator produces. */
  lemma SeatBoundsAgree(n: nat)
    ensures GroupedSeatBound(n) == SeatBound(n) <==> n % 7 in {0, 1}
  {
    var q, r := n / 7, n % 7;
    assert n == 7 * q + r;
    assert n * 4 == 7 * (4 * q) + 4 * r;
    assert SeatBound(n) == 4 * q + (4 * r) / 7;
  }
}
