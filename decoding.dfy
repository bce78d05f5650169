/** Reading the tables back out of a returned assignment. A solver returns
    its model as a list of literals; every positive literal that is the id
    of a pair or a triple becomes a group holding that table's members, and
    the re-scored weight adds up the weights of those tables. */
module Decoding {
  import opened Tables
  import opened Weights
  import opened Membership
  import opened Seating
  import opened Encoding

  datatype Option<T> = None | Some(value: T)

  // ---------------------------------------------------------------------
  // The inverse dictionaries

  /** {v: t for t, v in dictionary.items()}: a later table overwrites an
      earlier one with the same id. */
  function Inverse(ids: map<Var, int>, ts: seq<Table>): (r: map<int, Table>)
    requires forall t :: t in ts ==> X(t) in ids
    ensures forall v :: v in r ==> r[v] in ts && ids[X(r[v])] == v
    ensures forall t :: t in ts ==> ids[X(t)] in r
  {
    if ts == [] then map[]
    else
      var t := ts[|ts| - 1];
      Inverse(ids, ts[..|ts| - 1])[ids[X(t)] := t]
  }

  /** The pair and triple inverses consulted as the decoder does: the pair
      dictionary first, the triple dictionary only for an id it lacks. */
  function Decoder(ids: map<Var, int>, pairs: seq<Table>, triples: seq<Table>): (r: map<int, Table>)
    requires forall t :: t in pairs + triples ==> X(t) in ids
    ensures forall v :: v in r ==> r[v] in pairs + triples && ids[X(r[v])] == v
    ensures forall t :: t in pairs + triples ==> ids[X(t)] in r
  {
    assert forall t :: t in pairs ==> t in pairs + triples;
    assert forall t :: t in triples ==> t in pairs + triples;
    Inverse(ids, triples) + Inverse(ids, pairs)
  }

  /** Distinct tables of ts have distinct ids. */
  ghost predicate Injective(ids: map<Var, int>, ts: seq<Table>)
    requires forall t :: t in ts ==> X(t) in ids
  {
    forall t, u :: t in ts && u in ts && ids[X(t)] == ids[X(u)] ==> t == u
  }

  /** With distinct ids the decoder finds every table under its own id. */
  lemma DecoderExact(ids: map<Var, int>, pairs: seq<Table>, triples: seq<Table>)
    requires forall t :: t in pairs + triples ==> X(t) in ids
    requires Injective(ids, pairs + triples)
    ensures forall t :: t in pairs + triples ==> Decoder(ids, pairs, triples)[ids[X(t)]] == t
  {
  }

  // ---------------------------------------------------------------------
  // What the decoding loop computes

  /** The true ids of a model: its positive literals. */
  function TrueIds(model: seq<int>): (r: set<int>)
    ensures forall v :: v in r <==> v in model && v > 0
  {
    set v | v in model && v > 0
  }

  /** The keys of assigned_tables in insertion order: every positive
      literal found in the decoder, at its first occurrence. */
  function DecodedKeys(inv: map<int, Table>, model: seq<int>): (r: seq<int>)
    ensures Distinct(r)
    ensures forall k :: k in r <==> k in model && k > 0 && k in inv
    ensures forall p :: 0 <= p < |r| ==> r[p] in inv
  {
    if model == [] then []
    else
      var init := model[..|model| - 1];
      var keys := DecodedKeys(inv, init);
      var v := model[|model| - 1];
      assert model == init + [v];
      if v > 0 && v in inv && v !in keys then
        DistinctConcat(keys, [v]);
        keys + [v]
      else keys
  }

  /** The table of every positive literal found in the decoder, once per
      occurrence: the tables whose weights the re-scoring adds up. */
  function DecodedTables(inv: map<int, Table>, model: seq<int>): seq<Table>
  {
    if model == [] then []
    else
      var v := model[|model| - 1];
      DecodedTables(inv, model[..|model| - 1]) + (if v > 0 && v in inv then [inv[v]] else [])
  }

  /** [list(set(students)) for students in assigned_tables.values()], each
      list read as the set of its students. */
  function GroupsOf(inv: map<int, Table>, keys: seq<int>): (r: seq<set<int>>)
    requires forall p :: 0 <= p < |keys| ==> keys[p] in inv
    ensures |r| == |keys| && forall p :: 0 <= p < |keys| ==> r[p] == Members(inv[keys[p]])
  {
    seq(|keys|, p requires 0 <= p < |keys| => Members(inv[keys[p]]))
  }

  /** The members of t as the decoder lists them, [i, j] or [i, j, k]. */
  function Row(t: Table): (r: seq<int>)
    ensures |r| == Size(t)
    ensures forall x :: x in r <==> x in Members(t)
  {
    match t
    case Pair(a, b) => [a, b]
    case Triple(a, b, c) => [a, b, c]
  }

  /** w.get(t, 0) */
  function WeightOr0(w: map<Table, int>, t: Table): int
  {
    if t in w then w[t] else 0
  }

  /** The total of w.get(t, 0) over ts. */
  function TableSum(w: map<Table, int>, ts: seq<Table>): int
  {
    if ts == [] then 0 else TableSum(w, ts[..|ts| - 1]) + WeightOr0(w, ts[|ts| - 1])
  }

  /** 2 per pair and 3 per triple (16 and 24 eighths) over ts. */
  function SeatSum(ts: seq<Table>): int
  {
    if ts == [] then 0 else SeatSum(ts[..|ts| - 1]) + FullWeight(ts[|ts| - 1])
  }

  /** The chosen tables of ts, in the order of ts. */
  function ChosenTables(ids: map<Var, int>, A: set<int>, ts: seq<Table>): seq<Table>
  {
    if ts == [] then []
    else
      var t := ts[|ts| - 1];
      ChosenTables(ids, A, ts[..|ts| - 1]) + (if Chosen(ids, A, t) then [t] else [])
  }

  // ---------------------------------------------------------------------
  // Facts about the decoded keys and tables

  /** The decoded tables are the tables of the true ids found in the
      decoder; on a model that lists no literal twice, each appears once. */
  lemma {:induction false} DecodedTablesFacts(inv: map<int, Table>, ids: map<Var, int>, model: seq<int>)
    requires forall v :: v in inv ==> X(inv[v]) in ids && ids[X(inv[v])] == v
    ensures forall t :: t in DecodedTables(inv, model) <==>
      X(t) in ids && ids[X(t)] in model && ids[X(t)] > 0 && ids[X(t)] in inv && inv[ids[X(t)]] == t
    ensures Distinct(model) ==> Distinct(DecodedTables(inv, model))
  {
    if model != [] {
      var init := model[..|model| - 1];
      var v := model[|model| - 1];
      assert model == init + [v];
      DecodedTablesFacts(inv, ids, init);
      if Distinct(model) {
        assert Distinct(init);
        if v > 0 && v in inv {
          forall t | t in DecodedTables(inv, init) ensures t != inv[v] {
            assert ids[X(t)] in init;
          }
          DistinctConcat(DecodedTables(inv, init), [inv[v]]);
        }
      }
    }
  }

  lemma {:induction false} ChosenTablesFacts(ids: map<Var, int>, A: set<int>, ts: seq<Table>)
    ensures forall t :: t in ChosenTables(ids, A, ts) <==> t in ts && Chosen(ids, A, t)
    ensures Distinct(ts) ==> Distinct(ChosenTables(ids, A, ts))
  {
    if ts != [] {
      var init := ts[..|ts| - 1];
      var t := ts[|ts| - 1];
      assert ts == init + [t];
      ChosenTablesFacts(ids, A, init);
      if Distinct(ts) {
        assert Distinct(init);
        if Chosen(ids, A, t) {
          DistinctConcat(ChosenTables(ids, A, init), [t]);
        }
      }
    }
  }

  // ---------------------------------------------------------------------
  // Sums over sequences of tables

  lemma {:induction false} TableSumConcat(w: map<Table, int>, u: seq<Table>, v: seq<Table>)
    ensures TableSum(w, u + v) == TableSum(w, u) + TableSum(w, v)
    decreases |v|
  {
    if v != [] {
      var init := v[..|v| - 1];
      assert (u + v)[..|u + v| - 1] == u + init;
      assert (u + v)[|u + v| - 1] == v[|v| - 1];
      TableSumConcat(w, u, init);
    } else {
      assert u + v == u;
    }
  }

  /** Taking the table at position p out of r takes its weight out of the
      sum. */
  lemma RemoveOne(w: map<Table, int>, r: seq<Table>, p: int)
    requires 0 <= p < |r|
    ensures TableSum(w, r) == TableSum(w, r[..p] + r[p + 1..]) + WeightOr0(w, r[p])
  {
    var x := r[p];
    assert r == r[..p] + [x] + r[p + 1..];
    TableSumConcat(w, r[..p] + [x], r[p + 1..]);
    TableSumConcat(w, r[..p], [x]);
    TableSumConcat(w, r[..p], r[p + 1..]);
    assert [x][..0] == [];
  }

  lemma RemoveOneFacts<T>(r: seq<T>, p: int)
    requires 0 <= p < |r| && Distinct(r)
    ensures Distinct(r[..p] + r[p + 1..])
    ensures forall t :: t in r[..p] + r[p + 1..] <==> t in r && t != r[p]
  {
    var rest := r[..p] + r[p + 1..];
    forall a, b | 0 <= a < b < |rest| ensures rest[a] != rest[b] {
      var a' := if a < p then a else a + 1;
      var b' := if b < p then b else b + 1;
      assert rest[a] == r[a'] && rest[b] == r[b'];
    }
    forall t ensures t in rest <==> t in r && t != r[p] {
      if t in rest {
        var q :| 0 <= q < |rest| && rest[q] == t;
        var q' := if q < p then q else q + 1;
        assert r[q'] == t;
      }
      if t in r && t != r[p] {
        var q :| 0 <= q < |r| && r[q] == t;
        if q < p {
          assert rest[q] == t;
        } else {
          assert rest[q - 1] == t;
        }
      }
    }
  }

  lemma DropLast<T>(s: seq<T>)
    requires s != [] && Distinct(s)
    ensures Distinct(s[..|s| - 1])
    ensures forall t :: t in s[..|s| - 1] <==> t in s && t != s[|s| - 1]
  {
    forall t | t in s && t != s[|s| - 1] ensures t in s[..|s| - 1] {
      var q :| 0 <= q < |s| && s[q] == t;
      assert s[..|s| - 1][q] == t;
    }
  }

  /** The sum does not depend on the order of the tables. */
  lemma {:induction false} TableSumPermutation(w: map<Table, int>, s: seq<Table>, r: seq<Table>)
    requires Distinct(s) && Distinct(r)
    requires forall t :: t in s <==> t in r
    ensures TableSum(w, s) == TableSum(w, r)
    decreases |s|
  {
    DistinctSameLength(s, r);
    if s != [] {
      var x := s[|s| - 1];
      var init := s[..|s| - 1];
      assert s == init + [x];
      assert x in r;
      var p :| 0 <= p < |r| && r[p] == x;
      RemoveOne(w, r, p);
      RemoveOneFacts(r, p);
      DropLast(s);
      forall t ensures t in init <==> t in r[..p] + r[p + 1..] {
        assert t in s <==> t in r;
      }
      TableSumPermutation(w, init, r[..p] + r[p + 1..]);
    }
  }

  /** The chosen weight of the encoding module, as a sum over the chosen
      tables. */
  lemma {:induction false} ChosenWeightAsSum(ids: map<Var, int>, A: set<int>, w: map<Table, int>, ts: seq<Table>)
    requires forall t :: t in ts ==> t in w
    ensures ChosenWeight(ids, A, w, ts) == TableSum(w, ChosenTables(ids, A, ts))
  {
    if ts != [] {
      var init := ts[..|ts| - 1];
      var t := ts[|ts| - 1];
      ChosenWeightAsSum(ids, A, w, init);
      TableSumConcat(w, ChosenTables(ids, A, init), if Chosen(ids, A, t) then [t] else []);
      if Chosen(ids, A, t) {
        assert [t][..0] == [];
      }
    }
  }

  // ---------------------------------------------------------------------
  // What a decoded model means

  /** Re-scoring a model adds up exactly the weights of the chosen tables,
      provided the model lists every literal at most once (as a SAT or
      MaxSAT model does) and the ids are distinct. */
  lemma DecodedWeightIsChosen(ids: map<Var, int>, pairs: seq<Table>, triples: seq<Table>,
                              w: map<Table, int>, model: seq<int>)
    requires forall t :: t in pairs + triples ==> X(t) in ids && t in w
    requires Injective(ids, pairs + triples) && Distinct(pairs + triples) && Distinct(model)
    ensures TableSum(w, DecodedTables(Decoder(ids, pairs, triples), model))
      == ChosenWeight(ids, TrueIds(model), w, pairs + triples)
  {
    var ts := pairs + triples;
    var inv := Decoder(ids, pairs, triples);
    var A := TrueIds(model);
    DecoderExact(ids, pairs, triples);
    DecodedTablesFacts(inv, ids, model);
    ChosenTablesFacts(ids, A, ts);
    ChosenWeightAsSum(ids, A, w, ts);
    forall t ensures t in DecodedTables(inv, model) <==> t in ChosenTables(ids, A, ts) {
      if t in ChosenTables(ids, A, ts) {
        assert inv[ids[X(t)]] == t;
      }
    }
    TableSumPermutation(w, DecodedTables(inv, model), ChosenTables(ids, A, ts));
  }

  /** The groups returned for a model: the decoding of the sets above. */
  function Decode(ids: map<Var, int>, pairs: seq<Table>, triples: seq<Table>, model: seq<int>): seq<set<int>>
    requires forall t :: t in pairs + triples ==> X(t) in ids
  {
    var inv := Decoder(ids, pairs, triples);
    GroupsOf(inv, DecodedKeys(inv, model))
  }

  /** Everyone in some group. */
  function Flatten(groups: seq<set<int>>): (r: set<int>)
    ensures forall s :: s in r <==> exists p :: 0 <= p < |groups| && s in groups[p]
  {
    if groups == [] then {}
    else
      var init := groups[..|groups| - 1];
      assert forall p :: 0 <= p < |init| ==> init[p] == groups[p];
      Flatten(init) + groups[|groups| - 1]
  }

  /** The groups do not overlap, and together they hold the students 1..n
      and no one else. */
  ghost predicate PartitionOf(groups: seq<set<int>>, n: int)
  {
    (forall p, q :: 0 <= p < q < |groups| ==> groups[p] !! groups[q]) && Flatten(groups) == Students(n)
  }

  /** The groups are the member sets of the chosen tables, one group per
      chosen table. */
  lemma DecodedGroupsExact(ids: map<Var, int>, pairs: seq<Table>, triples: seq<Table>, model: seq<int>)
    requires forall t :: t in pairs + triples ==> X(t) in ids
    requires Injective(ids, pairs + triples) && Distinct(pairs + triples)
    ensures forall g :: g in Decode(ids, pairs, triples, model) <==>
      exists t :: t in pairs + triples && Chosen(ids, TrueIds(model), t) && g == Members(t)
    ensures |Decode(ids, pairs, triples, model)| == |ChosenTables(ids, TrueIds(model), pairs + triples)|
  {
    var inv := Decoder(ids, pairs, triples);
    var keys := DecodedKeys(inv, model);
    var A := TrueIds(model);
    var ts := pairs + triples;
    DecoderExact(ids, pairs, triples);
    var groups := Decode(ids, pairs, triples, model);
    forall g ensures g in groups <==> exists t :: t in ts && Chosen(ids, A, t) && g == Members(t) {
      if g in groups {
        var p :| 0 <= p < |groups| && groups[p] == g;
        var t := inv[keys[p]];
        assert t in ts && Chosen(ids, A, t) && g == Members(t);
      }
      if exists t :: t in ts && Chosen(ids, A, t) && g == Members(t) {
        var t :| t in ts && Chosen(ids, A, t) && g == Members(t);
        var k := ids[X(t)];
        assert k in keys;
        var p :| 0 <= p < |keys| && keys[p] == k;
        assert groups[p] == g;
      }
    }
    KeysCountChosen(ids, pairs, triples, model);
  }

  /** One key per chosen table. */
  lemma KeysCountChosen(ids: map<Var, int>, pairs: seq<Table>, triples: seq<Table>, model: seq<int>)
    requires forall t :: t in pairs + triples ==> X(t) in ids
    requires Injective(ids, pairs + triples) && Distinct(pairs + triples)
    ensures |DecodedKeys(Decoder(ids, pairs, triples), model)| == |ChosenTables(ids, TrueIds(model), pairs + triples)|
  {
    var inv := Decoder(ids, pairs, triples);
    var keys := DecodedKeys(inv, model);
    var A := TrueIds(model);
    var ts := pairs + triples;
    DecoderExact(ids, pairs, triples);
    ChosenTablesFacts(ids, A, ts);
    var chosen := ChosenTables(ids, A, ts);
    var asTables := seq(|keys|, p requires 0 <= p < |keys| => inv[keys[p]]);
    assert Distinct(asTables) by {
      forall a, b | 0 <= a < b < |asTables| ensures asTables[a] != asTables[b] {
        assert keys[a] != keys[b];
      }
    }
    forall t ensures t in asTables <==> t in chosen {
      if t in chosen {
        var k := ids[X(t)];
        assert k in keys;
        var p :| 0 <= p < |keys| && keys[p] == k;
        assert asTables[p] == t;
      }
    }
    DistinctSameLength(asTables, chosen);
  }

  /** Two duplicate-free sequences with the same elements have the same
      length. */
  lemma DistinctSameLength<T>(s: seq<T>, r: seq<T>)
    requires Distinct(s) && Distinct(r)
    requires forall t :: t in s <==> t in r
    ensures |s| == |r|
  {
    DistinctCard(s);
    DistinctCard(r);
    assert (set x | x in s) == (set x | x in r);
  }

  /** A duplicate-free sequence has as many elements as entries. */
  lemma {:induction false} DistinctCard<T>(s: seq<T>)
    requires Distinct(s)
    ensures |set x | x in s| == |s|
  {
    if s != [] {
      var init := s[..|s| - 1];
      DropLast(s);
      DistinctCard(init);
      assert (set x | x in s) == (set x | x in init) + {s[|s| - 1]};
    }
  }

  /** When every student sits at exactly one chosen table, the groups do
      not overlap, and together they hold the students 1..n and no one
      else. */
  lemma DecodedPartition(ids: map<Var, int>, n: nat, model: seq<int>)
    requires IdsFor(ids, n) && Seated(ids, TrueIds(model), n)
    ensures forall t :: t in Candidates(n) ==> X(t) in ids
    ensures PartitionOf(Decode(ids, PairsUpTo(1, n + 1, n + 1), TriplesUpTo(1, n + 1, n + 1), model), n)
  {
    CandidatesFacts(n);
    assert forall t :: t in Candidates(n) ==> X(t) in ids;
    DecodedDisjoint(ids, n, model);
    DecodedCover(ids, n, model);
  }

  lemma DecodedDisjoint(ids: map<Var, int>, n: nat, model: seq<int>)
    requires IdsFor(ids, n) && Seated(ids, TrueIds(model), n)
    requires forall t :: t in Candidates(n) ==> X(t) in ids && WellFormed(t, n)
    ensures var groups := Decode(ids, PairsUpTo(1, n + 1, n + 1), TriplesUpTo(1, n + 1, n + 1), model);
      forall p, q :: 0 <= p < q < |groups| ==> groups[p] !! groups[q]
  {
    var pairs, triples := PairsUpTo(1, n + 1, n + 1), TriplesUpTo(1, n + 1, n + 1);
    var A := TrueIds(model);
    var inv := Decoder(ids, pairs, triples);
    var keys := DecodedKeys(inv, model);
    var groups := Decode(ids, pairs, triples, model);
    SeatingPartition(ids, A, n);
    forall p, q | 0 <= p < q < |groups| ensures groups[p] !! groups[q] {
      var t, u := inv[keys[p]], inv[keys[q]];
      assert keys[p] != keys[q];
      assert t != u;
    }
  }

  lemma DecodedCover(ids: map<Var, int>, n: nat, model: seq<int>)
    requires IdsFor(ids, n) && Seated(ids, TrueIds(model), n)
    requires forall t :: t in Candidates(n) <==> WellFormed(t, n)
    requires forall t :: t in Candidates(n) ==> X(t) in ids
    ensures Flatten(Decode(ids, PairsUpTo(1, n + 1, n + 1), TriplesUpTo(1, n + 1, n + 1), model)) == Students(n)
  {
    var groups := Decode(ids, PairsUpTo(1, n + 1, n + 1), TriplesUpTo(1, n + 1, n + 1), model);
    SeatingPartition(ids, TrueIds(model), n);
    forall s ensures s in Flatten(groups) <==> s in Students(n) {
      if s in Flatten(groups) {
        DecodedWithin(ids, n, model, s);
      }
      if s in Students(n) {
        DecodedHas(ids, n, model, s);
      }
    }
  }

  /** Every member of a decoded group is one of the students 1..n. */
  lemma DecodedWithin(ids: map<Var, int>, n: nat, model: seq<int>, s: int)
    requires forall t :: t in Candidates(n) <==> WellFormed(t, n)
    requires forall t :: t in Candidates(n) ==> X(t) in ids
    requires s in Flatten(Decode(ids, PairsUpTo(1, n + 1, n + 1), TriplesUpTo(1, n + 1, n + 1), model))
    ensures 1 <= s <= n
  {
    var pairs, triples := PairsUpTo(1, n + 1, n + 1), TriplesUpTo(1, n + 1, n + 1);
    var inv := Decoder(ids, pairs, triples);
    var keys := DecodedKeys(inv, model);
    var groups := Decode(ids, pairs, triples, model);
    var p :| 0 <= p < |groups| && s in groups[p];
    var t := inv[keys[p]];
    assert t in pairs + triples;
    assert WellFormed(t, n);
    assert s in Members(t);
    MembersOfInRange(t, 1, n);
  }

  /** A student at some chosen table is in the group decoded for it. */
  lemma DecodedHas(ids: map<Var, int>, n: nat, model: seq<int>, s: int)
    requires forall t :: t in Candidates(n) <==> WellFormed(t, n)
    requires forall t :: t in Candidates(n) ==> X(t) in ids
    requires IdsFor(ids, n)
    requires AtSomeTable(ids, TrueIds(model), n, s)
    ensures s in Flatten(Decode(ids, PairsUpTo(1, n + 1, n + 1), TriplesUpTo(1, n + 1, n + 1), model))
  {
    var pairs, triples := PairsUpTo(1, n + 1, n + 1), TriplesUpTo(1, n + 1, n + 1);
    var A := TrueIds(model);
    var inv := Decoder(ids, pairs, triples);
    var keys := DecodedKeys(inv, model);
    var groups := Decode(ids, pairs, triples, model);
    var t :| WellFormed(t, n) && Chosen(ids, A, t) && s in Members(t);
    assert t in pairs + triples;
    var k := ids[X(t)];
    assert k in inv && k in model && k > 0;
    assert k in keys;
    var p :| 0 <= p < |keys| && keys[p] == k;
    assert inv[k] == t;
    assert groups[p] == Members(t);
  }


  // ---------------------------------------------------------------------
  // The CP-SAT decoding: rows of chosen tables and their re-scoring

  /** sorted([i, j]) or sorted([i, j, k]) for every chosen table of ts, in
      the order of ts. */
  function ChosenRows(ids: map<Var, int>, A: set<int>, ts: seq<Table>): seq<seq<int>>
  {
    if ts == [] then []
    else
      var t := ts[|ts| - 1];
      ChosenRows(ids, A, ts[..|ts| - 1]) + (if Chosen(ids, A, t) then [Row(t)] else [])
  }

  /** The weight of one reported table: wij[(i, j)] for a two-table,
      wijk[(i, j, k)] for a three-table, 0 when the dictionary lacks it. */
  function RowWeight(w: map<Table, int>, r: seq<int>): int
  {
    if |r| == 2 && Pair(r[0], r[1]) in w then w[Pair(r[0], r[1])]
    else if |r| == 3 && Triple(r[0], r[1], r[2]) in w then w[Triple(r[0], r[1], r[2])]
    else 0
  }

  function RescoredWeight(w: map<Table, int>, tables: seq<seq<int>>): int
  {
    if tables == [] then 0 else RescoredWeight(w, tables[..|tables| - 1]) + RowWeight(w, tables[|tables| - 1])
  }

  /** The members of a well-formed table are listed in increasing order, so
      sorting the row leaves it as it is. */
  lemma RowSorted(t: Table, lo: int, hi: int)
    requires InRange(t, lo, hi)
    ensures forall p, q :: 0 <= p < q < |Row(t)| ==> Row(t)[p] < Row(t)[q]
  {
  }

  /** The reported rows are the rows of the chosen tables. */
  lemma {:induction false} ChosenRowsExact(ids: map<Var, int>, A: set<int>, ts: seq<Table>)
    ensures forall r :: r in ChosenRows(ids, A, ts) <==> exists t :: t in ts && Chosen(ids, A, t) && r == Row(t)
    ensures |ChosenRows(ids, A, ts)| == |ChosenTables(ids, A, ts)|
  {
    if ts != [] {
      var init := ts[..|ts| - 1];
      var t := ts[|ts| - 1];
      assert ts == init + [t];
      ChosenRowsExact(ids, A, init);
      forall r ensures r in ChosenRows(ids, A, ts) <==> exists u :: u in ts && Chosen(ids, A, u) && r == Row(u) {
        if exists u :: u in ts && Chosen(ids, A, u) && r == Row(u) {
          var u :| u in ts && Chosen(ids, A, u) && r == Row(u);
          if u != t {
            assert u in init;
          }
        }
      }
    }
  }

  /** Re-scoring the reported rows gives the weight of the chosen tables. */
  lemma {:induction false} RescoredIsChosen(ids: map<Var, int>, A: set<int>, w: map<Table, int>, ts: seq<Table>)
    requires forall t :: t in ts ==> t in w
    ensures RescoredWeight(w, ChosenRows(ids, A, ts)) == ChosenWeight(ids, A, w, ts)
  {
    if ts != [] {
      var init := ts[..|ts| - 1];
      var t := ts[|ts| - 1];
      var rows := ChosenRows(ids, A, init);
      RescoredIsChosen(ids, A, w, init);
      if Chosen(ids, A, t) {
        assert (rows + [Row(t)])[..|rows + [Row(t)]| - 1] == rows;
        assert RowWeight(w, Row(t)) == w[t];
      } else {
        assert rows + [] == rows;
      }
    }
  }
}
