/** Clauses, abstract cardinality constraints and weighted soft clauses over
    integer literals, as handed to the SAT, MaxSAT and CP-SAT back ends.
    A positive literal v asserts variable v, a negative literal -v denies it;
    an assignment is the set of variable ids that are true. */
module Cnf {
  import opened Tables

  predicate LitTrue(l: int, A: set<int>)
  {
    if l > 0 then l in A else -l !in A
  }

  predicate ClauseSat(c: seq<int>, A: set<int>)
  {
    exists p :: 0 <= p < |c| && LitTrue(c[p], A)
  }

  predicate AllSat(cs: seq<seq<int>>, A: set<int>)
  {
    forall q :: 0 <= q < |cs| ==> ClauseSat(cs[q], A)
  }

  /** The number of positions of lits whose literal is true: the value of
      sum(lits) in a linear constraint over 0/1 variables. */
  function CountTrue(lits: seq<int>, A: set<int>): nat
  {
    if lits == [] then 0
    else CountTrue(lits[..|lits| - 1], A) + (if LitTrue(lits[|lits| - 1], A) then 1 else 0)
  }

  /** Appending a literal adds one when it is true. */
  lemma CountTrueSnoc(lits: seq<int>, x: int, A: set<int>)
    ensures CountTrue(lits + [x], A) == CountTrue(lits, A) + (if LitTrue(x, A) then 1 else 0)
  {
    assert (lits + [x])[..|lits|] == lits;
  }

  /** A hard constraint: a clause, or a cardinality constraint whose encoding
      into clauses is left to the solver library. */
  datatype Constraint =
    | Clause(lits: seq<int>)
    | AtMost(lits: seq<int>, bound: int)
    | Exactly(lits: seq<int>, bound: int)

  predicate Holds(c: Constraint, A: set<int>)
  {
    match c
    case Clause(lits) => ClauseSat(lits, A)
    case AtMost(lits, k) => CountTrue(lits, A) <= k
    case Exactly(lits, k) => CountTrue(lits, A) == k
  }

  predicate AllHold(cs: seq<Constraint>, A: set<int>)
  {
    forall q :: 0 <= q < |cs| ==> Holds(cs[q], A)
  }

  function Clauses(cs: seq<seq<int>>): (r: seq<Constraint>)
    ensures |r| == |cs| && forall q :: 0 <= q < |cs| ==> r[q] == Clause(cs[q])
  {
    if cs == [] then [] else Clauses(cs[..|cs| - 1]) + [Clause(cs[|cs| - 1])]
  }

  lemma AllHoldConcat(u: seq<Constraint>, w: seq<Constraint>, A: set<int>)
    ensures AllHold(u + w, A) <==> AllHold(u, A) && AllHold(w, A)
  {
    if AllHold(u, A) && AllHold(w, A) {
      forall q | 0 <= q < |u + w| ensures Holds((u + w)[q], A) {
        if q >= |u| {
          assert (u + w)[q] == w[q - |u|];
        }
      }
    }
    if AllHold(u + w, A) {
      forall q | 0 <= q < |w| ensures Holds(w[q], A) {
        assert (u + w)[|u| + q] == w[q];
      }
      forall q | 0 <= q < |u| ensures Holds(u[q], A) {
        assert (u + w)[q] == u[q];
      }
    }
  }

  lemma AllHoldClauses(cs: seq<seq<int>>, A: set<int>)
    ensures AllHold(Clauses(cs), A) <==> AllSat(cs, A)
  {
  }

  // ---------------------------------------------------------------------
  // Counting true positions

  lemma {:induction false} CountTrueBounds(lits: seq<int>, A: set<int>)
    ensures CountTrue(lits, A) <= |lits|
    ensures CountTrue(lits, A) >= 1 <==> exists p :: 0 <= p < |lits| && LitTrue(lits[p], A)
    ensures CountTrue(lits, A) >= 2 <==>
      exists p, q :: 0 <= p < q < |lits| && LitTrue(lits[p], A) && LitTrue(lits[q], A)
  {
    if lits != [] {
      var init := lits[..|lits| - 1];
      var last := |lits| - 1;
      CountTrueBounds(init, A);
      if exists p :: 0 <= p < |init| && LitTrue(init[p], A) {
        var p :| 0 <= p < |init| && LitTrue(init[p], A);
        assert lits[p] == init[p];
      }
      if exists p :: 0 <= p < |lits| && LitTrue(lits[p], A) {
        var p :| 0 <= p < |lits| && LitTrue(lits[p], A);
        if p < last {
          assert init[p] == lits[p];
        }
      }
      if exists p, q :: 0 <= p < q < |init| && LitTrue(init[p], A) && LitTrue(init[q], A) {
        var p, q :| 0 <= p < q < |init| && LitTrue(init[p], A) && LitTrue(init[q], A);
        assert lits[p] == init[p] && lits[q] == init[q];
      }
      if exists p, q :: 0 <= p < q < |lits| && LitTrue(lits[p], A) && LitTrue(lits[q], A) {
        var p, q :| 0 <= p < q < |lits| && LitTrue(lits[p], A) && LitTrue(lits[q], A);
        assert init[p] == lits[p];
        if q < last {
          assert init[q] == lits[q];
        }
      }
    }
  }

  /** Exactly one position of lits holds a true literal. */
  predicate ExactlyOne(lits: seq<int>, A: set<int>)
  {
    exists p :: 0 <= p < |lits| && LitTrue(lits[p], A) &&
      forall q :: 0 <= q < |lits| && LitTrue(lits[q], A) ==> q == p
  }

  lemma ExactlyOneCount(lits: seq<int>, A: set<int>)
    ensures ExactlyOne(lits, A) <==> CountTrue(lits, A) == 1
  {
    CountTrueBounds(lits, A);
    if CountTrue(lits, A) == 1 {
      var p :| 0 <= p < |lits| && LitTrue(lits[p], A);
      forall q | 0 <= q < |lits| && LitTrue(lits[q], A) ensures q == p {
        if q != p {
          TwoTrue(lits, A, p, q);
        }
      }
    }
  }

  lemma TwoTrue(lits: seq<int>, A: set<int>, p: int, q: int)
    requires 0 <= p < |lits| && 0 <= q < |lits| && p != q
    requires LitTrue(lits[p], A) && LitTrue(lits[q], A)
    ensures CountTrue(lits, A) >= 2
  {
    CountTrueBounds(lits, A);
    if p < q {
      assert LitTrue(lits[p], A) && LitTrue(lits[q], A);
    } else {
      assert LitTrue(lits[q], A) && LitTrue(lits[p], A);
    }
  }

  // ---------------------------------------------------------------------
  // At-most-one by pairwise exclusion: for each m < q, the clause
  // [-lits[m], -lits[q]], with m outer and q inner.

  /** [-lits[m], -lits[q]] for m < q < hi. */
  function PairwiseRow(lits: seq<int>, m: nat, hi: nat): seq<seq<int>>
    requires m < |lits| && hi <= |lits|
    decreases hi
  {
    if hi <= m + 1 then [] else PairwiseRow(lits, m, hi - 1) + [[-lits[m], -lits[hi - 1]]]
  }

  /** The rows for m < mhi. */
  function Pairwise(lits: seq<int>, mhi: nat): seq<seq<int>>
    requires mhi <= |lits|
  {
    if mhi == 0 then [] else Pairwise(lits, mhi - 1) + PairwiseRow(lits, mhi - 1, |lits|)
  }

  function AtMostOnePairwise(lits: seq<int>): seq<seq<int>>
  {
    Pairwise(lits, |lits|)
  }

  predicate NoTwoTrue(lits: seq<int>, A: set<int>, mhi: nat)
  {
    forall p, q :: 0 <= p < mhi && p < q < |lits| ==> !(lits[p] in A && lits[q] in A)
  }

  lemma {:induction false} PairwiseRowFacts(lits: seq<int>, m: nat, hi: nat, A: set<int>)
    requires m < |lits| && hi <= |lits|
    requires forall p :: 0 <= p < |lits| ==> lits[p] > 0
    ensures |PairwiseRow(lits, m, hi)| == if hi <= m + 1 then 0 else hi - m - 1
    ensures AllSat(PairwiseRow(lits, m, hi), A) <==>
      forall q :: m < q < hi ==> !(lits[m] in A && lits[q] in A)
    decreases hi
  {
    if hi > m + 1 {
      var row := PairwiseRow(lits, m, hi - 1);
      var c := [-lits[m], -lits[hi - 1]];
      PairwiseRowFacts(lits, m, hi - 1, A);
      assert ClauseSat(c, A) <==> !(lits[m] in A && lits[hi - 1] in A) by {
        assert LitTrue(c[0], A) <==> lits[m] !in A;
        assert LitTrue(c[1], A) <==> lits[hi - 1] !in A;
      }
      assert AllSat(row + [c], A) <==> AllSat(row, A) && ClauseSat(c, A) by {
        if AllSat(row, A) && ClauseSat(c, A) {
          forall q | 0 <= q < |row + [c]| ensures ClauseSat((row + [c])[q], A) {
            if q < |row| {
              assert (row + [c])[q] == row[q];
            }
          }
        }
        if AllSat(row + [c], A) {
          assert (row + [c])[|row|] == c;
          forall q | 0 <= q < |row| ensures ClauseSat(row[q], A) {
            assert (row + [c])[q] == row[q];
          }
        }
      }
    }
  }

  lemma AllSatConcat(u: seq<seq<int>>, w: seq<seq<int>>, A: set<int>)
    ensures AllSat(u + w, A) <==> AllSat(u, A) && AllSat(w, A)
  {
    if AllSat(u, A) && AllSat(w, A) {
      forall q | 0 <= q < |u + w| ensures ClauseSat((u + w)[q], A) {
        if q >= |u| {
          assert (u + w)[q] == w[q - |u|];
        }
      }
    }
    if AllSat(u + w, A) {
      forall q | 0 <= q < |w| ensures ClauseSat(w[q], A) {
        assert (u + w)[|u| + q] == w[q];
      }
      forall q | 0 <= q < |u| ensures ClauseSat(u[q], A) {
        assert (u + w)[q] == u[q];
      }
    }
  }

  lemma {:induction false} PairwiseFacts(lits: seq<int>, mhi: nat, A: set<int>)
    requires mhi <= |lits|
    requires forall p :: 0 <= p < |lits| ==> lits[p] > 0
    ensures AllSat(Pairwise(lits, mhi), A) <==> NoTwoTrue(lits, A, mhi)
    ensures |Pairwise(lits, mhi)| + C2(|lits| - mhi) == C2(|lits|)
  {
    if mhi > 0 {
      PairwiseFacts(lits, mhi - 1, A);
      PairwiseRowFacts(lits, mhi - 1, |lits|, A);
      AllSatConcat(Pairwise(lits, mhi - 1), PairwiseRow(lits, mhi - 1, |lits|), A);
      assert C2(|lits| - mhi + 1) == C2(|lits| - mhi) + (|lits| - mhi);
    }
  }

  lemma NotBothTrue(lits: seq<int>, A: set<int>, p: int, q: int)
    requires NoTwoTrue(lits, A, |lits|)
    requires 0 <= p < |lits| && 0 <= q < |lits| && p != q
    ensures !(lits[p] in A && lits[q] in A)
  {
    if p < q {
      assert !(lits[p] in A && lits[q] in A);
    } else {
      assert !(lits[q] in A && lits[p] in A);
    }
  }

  /** For a list of variables, the at-least-one clause
      together with the pairwise exclusions holds exactly when one listed
      variable is true; C(L, 2) exclusion clauses are emitted for L variables. */
  lemma ExactlyOnePairwise(lits: seq<int>, A: set<int>)
    requires forall p :: 0 <= p < |lits| ==> lits[p] > 0
    ensures ClauseSat(lits, A) && AllSat(AtMostOnePairwise(lits), A) <==> ExactlyOne(lits, A)
    ensures |AtMostOnePairwise(lits)| == C2(|lits|)
  {
    PairwiseFacts(lits, |lits|, A);
    if ExactlyOne(lits, A) {
      var p :| 0 <= p < |lits| && LitTrue(lits[p], A) &&
        forall q :: 0 <= q < |lits| && LitTrue(lits[q], A) ==> q == p;
      forall m, q | 0 <= m < |lits| && m < q < |lits| ensures !(lits[m] in A && lits[q] in A) {
        assert lits[m] in A ==> LitTrue(lits[m], A);
        assert lits[q] in A ==> LitTrue(lits[q], A);
      }
    }
    if ClauseSat(lits, A) && AllSat(AtMostOnePairwise(lits), A) {
      var p :| 0 <= p < |lits| && LitTrue(lits[p], A);
      forall q | 0 <= q < |lits| && LitTrue(lits[q], A) ensures q == p {
        if q != p {
          NotBothTrue(lits, A, p, q);
        }
      }
    }
  }

  /** Without the at-least-one clause, the pairwise exclusions alone are
      satisfied by the assignment in which nothing is true. */
  lemma PairwiseAloneAllowsNone(lits: seq<int>)
    requires forall p :: 0 <= p < |lits| ==> lits[p] > 0
    ensures AllSat(AtMostOnePairwise(lits), {})
    ensures |lits| > 0 ==> !ExactlyOne(lits, {})
  {
    PairwiseFacts(lits, |lits|, {});
  }

  // ---------------------------------------------------------------------
  // Weighted soft clauses (weights in eighths, see module Weights)

  datatype Soft = Soft(lits: seq<int>, weight: int)

  /** The MaxSAT cost of an assignment: the total weight of the violated soft
      clauses. */
  function Cost(soft: seq<Soft>, A: set<int>): int
  {
    if soft == [] then 0
    else
      var last := soft[|soft| - 1];
      Cost(soft[..|soft| - 1], A) + (if ClauseSat(last.lits, A) then 0 else last.weight)
  }

  function TotalWeight(soft: seq<Soft>): int
  {
    if soft == [] then 0 else TotalWeight(soft[..|soft| - 1]) + soft[|soft| - 1].weight
  }

  /** The total weight of the satisfied soft clauses. */
  function Gain(soft: seq<Soft>, A: set<int>): int
  {
    if soft == [] then 0
    else
      var last := soft[|soft| - 1];
      Gain(soft[..|soft| - 1], A) + (if ClauseSat(last.lits, A) then last.weight else 0)
  }

  lemma {:induction false} GainPlusCost(soft: seq<Soft>, A: set<int>)
    ensures Gain(soft, A) + Cost(soft, A) == TotalWeight(soft)
  {
    if soft != [] {
      GainPlusCost(soft[..|soft| - 1], A);
    }
  }

  /** Appending one soft clause adds its weight to the total and to the
      cost or the gain, as the clause is violated or satisfied. */
  lemma SoftSnoc(soft: seq<Soft>, c: Soft, A: set<int>)
    ensures Cost(soft + [c], A) == Cost(soft, A) + (if ClauseSat(c.lits, A) then 0 else c.weight)
    ensures Gain(soft + [c], A) == Gain(soft, A) + (if ClauseSat(c.lits, A) then c.weight else 0)
    ensures TotalWeight(soft + [c]) == TotalWeight(soft) + c.weight
  {
    assert (soft + [c])[..|soft + [c]| - 1] == soft;
  }

  lemma UnitClause(l: int, A: set<int>)
    ensures ClauseSat([l], A) <==> LitTrue(l, A)
  {
    if LitTrue(l, A) {
      assert [l][0] == l;
    }
  }

  lemma {:induction false} ClausesConcat(u: seq<seq<int>>, w: seq<seq<int>>)
    ensures Clauses(u + w) == Clauses(u) + Clauses(w)
    decreases |w|
  {
    if w != [] {
      assert (u + w)[..|u + w| - 1] == u + w[..|w| - 1];
      ClausesConcat(u, w[..|w| - 1]);
    }
  }

  // ---------------------------------------------------------------------
  // Linear objective terms of the CP-SAT and MIP models

  /** The term coef * x over a 0/1 variable x. */
  datatype Term = Term(coef: int, x: int)

  /** The value of sum(terms) under an assignment. */
  function Value(terms: seq<Term>, A: set<int>): int
  {
    if terms == [] then 0
    else
      var last := terms[|terms| - 1];
      Value(terms[..|terms| - 1], A) + (if last.x in A then last.coef else 0)
  }

  lemma ValueSnoc(terms: seq<Term>, t: Term, A: set<int>)
    ensures Value(terms + [t], A) == Value(terms, A) + (if t.x in A then t.coef else 0)
  {
    assert (terms + [t])[..|terms + [t]| - 1] == terms;
  }
}
