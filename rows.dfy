/** assigned_tables.sort() on the reported rows: Python orders lists of
    integers lexicographically, a proper prefix first. The sort is a pure
    call, specified here by insertion into a sorted list; that the result
    is sorted and a permutation, and that re-scoring it gives the same
    total, is what the scripts rely on. */
module Rows {
  import opened Tables
  import opened Decoding

  /** a <= b for Python lists of integers. */
  predicate LexLeq(a: seq<int>, b: seq<int>)
  {
    if a == [] then true
    else if b == [] then false
    else if a[0] != b[0] then a[0] < b[0]
    else LexLeq(a[1..], b[1..])
  }

  lemma {:induction false} LexReflexive(a: seq<int>)
    ensures LexLeq(a, a)
  {
    if a != [] {
      LexReflexive(a[1..]);
    }
  }

  lemma {:induction false} LexTotal(a: seq<int>, b: seq<int>)
    ensures LexLeq(a, b) || LexLeq(b, a)
  {
    if a != [] && b != [] && a[0] == b[0] {
      LexTotal(a[1..], b[1..]);
    }
  }

  lemma {:induction false} LexAntisymmetric(a: seq<int>, b: seq<int>)
    requires LexLeq(a, b) && LexLeq(b, a)
    ensures a == b
  {
    if a != [] && b != [] {
      LexAntisymmetric(a[1..], b[1..]);
      assert a == [a[0]] + a[1..] && b == [b[0]] + b[1..];
    }
  }

  lemma {:induction false} LexTransitive(a: seq<int>, b: seq<int>, c: seq<int>)
    requires LexLeq(a, b) && LexLeq(b, c)
    ensures LexLeq(a, c)
  {
    if a != [] && b != [] && c != [] && a[0] == b[0] && b[0] == c[0] {
      LexTransitive(a[1..], b[1..], c[1..]);
    }
  }

  /** Every row is at most the one after it. */
  ghost predicate Sorted(rows: seq<seq<int>>)
  {
    forall p, q :: 0 <= p < q < |rows| ==> LexLeq(rows[p], rows[q])
  }

  /** Insert r before the first row it is at most. */
  function Insert(r: seq<int>, rows: seq<seq<int>>): seq<seq<int>>
  {
    if rows == [] then [r]
    else if LexLeq(r, rows[0]) then [r] + rows
    else [rows[0]] + Insert(r, rows[1..])
  }

  /** The rows in Python's order. */
  function SortRows(rows: seq<seq<int>>): seq<seq<int>>
  {
    if rows == [] then []
    else Insert(rows[|rows| - 1], SortRows(rows[..|rows| - 1]))
  }

  /** Inserting keeps the rows and adds r once; into sorted rows it keeps
      them sorted. */
  lemma InsertFacts(r: seq<int>, rows: seq<seq<int>>)
    ensures multiset(Insert(r, rows)) == multiset(rows) + multiset{r}
    ensures Sorted(rows) ==> Sorted(Insert(r, rows))
  {
    InsertPermutes(r, rows);
    if Sorted(rows) {
      InsertSorted(r, rows);
    }
  }

  lemma {:induction false} InsertPermutes(r: seq<int>, rows: seq<seq<int>>)
    ensures multiset(Insert(r, rows)) == multiset(rows) + multiset{r}
  {
    if rows != [] && !LexLeq(r, rows[0]) {
      InsertPermutes(r, rows[1..]);
      assert rows == [rows[0]] + rows[1..];
    }
  }

  lemma {:induction false} InsertSorted(r: seq<int>, rows: seq<seq<int>>)
    requires Sorted(rows)
    ensures Sorted(Insert(r, rows))
  {
    if rows != [] {
      if LexLeq(r, rows[0]) {
        InsertFront(r, rows);
      } else {
        SortedTail(rows);
        InsertSorted(r, rows[1..]);
        InsertPermutes(r, rows[1..]);
        InsertBehind(r, rows);
      }
    }
  }

  /** r at most the first row goes in front. */
  lemma InsertFront(r: seq<int>, rows: seq<seq<int>>)
    requires Sorted(rows) && rows != [] && LexLeq(r, rows[0])
    ensures Sorted([r] + rows)
  {
    var res := [r] + rows;
    forall p, q | 0 <= p < q < |res| ensures LexLeq(res[p], res[q]) {
      if p == 0 {
        assert res[q] == rows[q - 1];
        if q > 1 {
          LexTransitive(r, rows[0], rows[q - 1]);
        }
      }
    }
  }

  /** r above the first row goes behind it, among the rest. */
  lemma InsertBehind(r: seq<int>, rows: seq<seq<int>>)
    requires Sorted(rows) && rows != [] && !LexLeq(r, rows[0])
    requires Sorted(Insert(r, rows[1..]))
    requires multiset(Insert(r, rows[1..])) == multiset(rows[1..]) + multiset{r}
    ensures Sorted([rows[0]] + Insert(r, rows[1..]))
  {
    var rest := rows[1..];
    var res := [rows[0]] + Insert(r, rest);
    LexTotal(r, rows[0]);
    forall p, q | 0 <= p < q < |res| ensures LexLeq(res[p], res[q]) {
      if p == 0 {
        // res[q] is r or a row of rest, both at least rows[0]
        assert res[q] in multiset(Insert(r, rest));
        assert res[q] == r || res[q] in multiset(rest);
        if res[q] != r {
          var k :| 0 <= k < |rest| && rest[k] == res[q];
          assert rows[k + 1] == res[q];
        }
      }
    }
  }

  /** assigned_tables.sort() leaves the same rows, sorted. */
  lemma {:induction false} SortRowsFacts(rows: seq<seq<int>>)
    ensures multiset(SortRows(rows)) == multiset(rows)
    ensures Sorted(SortRows(rows))
  {
    if rows != [] {
      var init, last := rows[..|rows| - 1], rows[|rows| - 1];
      SortRowsFacts(init);
      InsertFacts(last, SortRows(init));
      assert rows == init + [last];
    }
  }

  /** Python's sort has one possible result: sorted rows with the same
      entries are equal. */
  lemma {:induction false} SortedUnique(a: seq<seq<int>>, b: seq<seq<int>>)
    requires Sorted(a) && Sorted(b) && multiset(a) == multiset(b)
    ensures a == b
  {
    if a != [] {
      assert b != [] by {
        assert a[0] in multiset(b);
      }
      SortedHeads(a, b);
      SortedTail(a);
      SortedTail(b);
      MultisetTail(a, b);
      SortedUnique(a[1..], b[1..]);
      assert a == [a[0]] + a[1..] && b == [b[0]] + b[1..];
    }
  }

  lemma SortedTail(a: seq<seq<int>>)
    requires Sorted(a) && a != []
    ensures Sorted(a[1..])
  {
    forall p, q | 0 <= p < q < |a| - 1 ensures LexLeq(a[1..][p], a[1..][q]) {
      assert a[1..][p] == a[p + 1] && a[1..][q] == a[q + 1];
    }
  }

  lemma SortedHeads(a: seq<seq<int>>, b: seq<seq<int>>)
    requires Sorted(a) && Sorted(b) && multiset(a) == multiset(b) && a != [] && b != []
    ensures a[0] == b[0]
  {
    assert a[0] in multiset(b);
    assert b[0] in multiset(a);
    var i :| 0 <= i < |b| && b[i] == a[0];
    var j :| 0 <= j < |a| && a[j] == b[0];
    if i == 0 {
      LexReflexive(b[0]);
    }
    if j == 0 {
      LexReflexive(a[0]);
    }
    LexAntisymmetric(a[0], b[0]);
  }

  lemma MultisetTail(a: seq<seq<int>>, b: seq<seq<int>>)
    requires multiset(a) == multiset(b) && a != [] && b != [] && a[0] == b[0]
    ensures multiset(a[1..]) == multiset(b[1..])
  {
    assert a == [a[0]] + a[1..] && b == [b[0]] + b[1..];
    assert multiset(a[1..]) == multiset(a) - multiset{a[0]};
    assert multiset(b[1..]) == multiset(b) - multiset{b[0]};
  }

  /** Adding a row in front adds its weight. */
  lemma {:induction false} RescoredCons(w: map<Table, int>, r: seq<int>, rows: seq<seq<int>>)
    ensures RescoredWeight(w, [r] + rows) == RowWeight(w, r) + RescoredWeight(w, rows)
  {
    if rows != [] {
      var init := rows[..|rows| - 1];
      RescoredCons(w, r, init);
      assert ([r] + rows)[..|[r] + rows| - 1] == [r] + init;
    }
  }

  lemma {:induction false} RescoredInsert(w: map<Table, int>, r: seq<int>, rows: seq<seq<int>>)
    ensures RescoredWeight(w, Insert(r, rows)) == RowWeight(w, r) + RescoredWeight(w, rows)
  {
    if rows == [] {
      assert RescoredWeight(w, [r]) == RescoredWeight(w, []) + RowWeight(w, r);
    } else if LexLeq(r, rows[0]) {
      RescoredCons(w, r, rows);
    } else {
      RescoredInsert(w, r, rows[1..]);
      RescoredCons(w, rows[0], Insert(r, rows[1..]));
      RescoredCons(w, rows[0], rows[1..]);
      assert [rows[0]] + rows[1..] == rows;
    }
  }

  /** Sorting before re-scoring does not change the total. */
  lemma {:induction false} RescoredSorted(w: map<Table, int>, rows: seq<seq<int>>)
    ensures RescoredWeight(w, SortRows(rows)) == RescoredWeight(w, rows)
  {
    if rows != [] {
      var init := rows[..|rows| - 1];
      RescoredSorted(w, init);
      RescoredInsert(w, rows[|rows| - 1], SortRows(init));
    }
  }
}
