/** The decoding loops of the solvers, proved against the functions of
    module Decoding. A SAT or MaxSAT model arrives as a list of literals; a
    CP-SAT solution as the set of variables whose value is 1. */
module Extraction {
  import opened Tables
  import opened Weights
  import opened Membership
  import opened Seating
  import opened Encoding
  import opened Decoding

  /** What the loop has assembled from the literals read so far: the keys
      of assigned_tables in insertion order, and under each key a list whose
      students are those of the key's table. */
  ghost predicate Assembled(inv: map<int, Table>, read: seq<int>, keys: seq<int>, lists: map<int, seq<int>>)
  {
    keys == DecodedKeys(inv, read) &&
    (forall p :: 0 <= p < |keys| ==> keys[p] in lists) &&
    (forall k :: k in lists ==> k in keys) &&
    (forall k :: k in lists ==> k in inv && forall x :: x in lists[k] <==> x in Members(inv[k]))
  }

  /** One literal of the model: assigned_tables.setdefault(var, []).extend(...)
      for a positive literal found in the pair dictionary or, failing that,
      in the triple dictionary. */
  method ReadLiteral(pairInv: map<int, Table>, tripleInv: map<int, Table>, ghost read: seq<int>, v: int,
                     keys0: seq<int>, lists0: map<int, seq<int>>)
    returns (keys: seq<int>, lists: map<int, seq<int>>, found: Option<Table>)
    requires Assembled(tripleInv + pairInv, read, keys0, lists0)
    ensures Assembled(tripleInv + pairInv, read + [v], keys, lists)
    ensures found == Found(tripleInv + pairInv, v)
  {
    ghost var inv := tripleInv + pairInv;
    assert (read + [v])[..|read + [v]| - 1] == read;
    keys, lists, found := keys0, lists0, None;
    if v > 0 {
      var t: Table;
      if v in pairInv {
        t := pairInv[v];
      } else if v in tripleInv {
        t := tripleInv[v];
      } else {
        return;
      }
      var before := if v in lists then lists[v] else [];
      if v !in lists {
        keys := keys + [v];
      }
      lists := lists[v := before + Row(t)];
      found := Some(t);
    }
  }

  /** The table a literal adds to those read, if any. */
  function Found(inv: map<int, Table>, v: int): Option<Table>
  {
    if v > 0 && v in inv then Some(inv[v]) else None
  }

  lemma AssembledStep(inv: map<int, Table>, literals: seq<int>, p: int, keys: seq<int>, lists: map<int, seq<int>>)
    requires 0 <= p < |literals| && Assembled(inv, literals[..p] + [literals[p]], keys, lists)
    ensures Assembled(inv, literals[..p + 1], keys, lists)
  {
    assert literals[..p + 1] == literals[..p] + [literals[p]];
  }

  lemma TableSumSnoc(w: map<Table, int>, s: seq<Table>, t: Table)
    ensures TableSum(w, s + [t]) == TableSum(w, s) + WeightOr0(w, t)
  {
    assert (s + [t])[..|s|] == s;
  }

  lemma DecodedTablesStep(inv: map<int, Table>, literals: seq<int>, p: int, found: Option<Table>)
    requires 0 <= p < |literals| && found == Found(inv, literals[p])
    ensures DecodedTables(inv, literals[..p + 1]) ==
      DecodedTables(inv, literals[..p]) + (if found.Some? then [found.value] else [])
  {
    var prefix := literals[..p + 1];
    assert prefix[|prefix| - 1] == literals[p];
    assert prefix[..|prefix| - 1] == literals[..p];
  }

  lemma SeatSumSnoc(s: seq<Table>, t: Table)
    ensures SeatSum(s + [t]) == SeatSum(s) + FullWeight(t)
  {
    assert (s + [t])[..|s|] == s;
  }

  lemma SeatTotalStep(inv: map<int, Table>, literals: seq<int>, p: int, total: int, found: Option<Table>, add: int)
    requires 0 <= p < |literals| && total == SeatSum(DecodedTables(inv, literals[..p]))
    requires found == Found(inv, literals[p]) && add == (if found.Some? then (if found.value.Pair? then 16 else 24) else 0)
    ensures total + add == SeatSum(DecodedTables(inv, literals[..p + 1]))
  {
    DecodedTablesStep(inv, literals, p, found);
    if found.Some? {
      SeatSumSnoc(DecodedTables(inv, literals[..p]), found.value);
    } else {
      assert DecodedTables(inv, literals[..p]) + [] == DecodedTables(inv, literals[..p]);
    }
  }

  lemma TableTotalStep(w: map<Table, int>, inv: map<int, Table>, literals: seq<int>, p: int, total: int, found: Option<Table>, add: int)
    requires 0 <= p < |literals| && total == TableSum(w, DecodedTables(inv, literals[..p]))
    requires found == Found(inv, literals[p]) && add == (if found.Some? then WeightOr0(w, found.value) else 0)
    ensures total + add == TableSum(w, DecodedTables(inv, literals[..p + 1]))
  {
    DecodedTablesStep(inv, literals, p, found);
    if found.Some? {
      TableSumSnoc(w, DecodedTables(inv, literals[..p]), found.value);
    } else {
      assert DecodedTables(inv, literals[..p]) + [] == DecodedTables(inv, literals[..p]);
    }
  }

  /** extract_solution: one group per true pair or triple id. */
  method ExtractSolution(pairInv: map<int, Table>, tripleInv: map<int, Table>, model: seq<int>)
    returns (groups: seq<set<int>>)
    ensures groups == GroupsOf(tripleInv + pairInv, DecodedKeys(tripleInv + pairInv, model))
  {
    var keys: seq<int> := [];
    var lists: map<int, seq<int>> := map[];
    var p := 0;
    while p < |model|
      invariant 0 <= p <= |model|
      invariant Assembled(tripleInv + pairInv, model[..p], keys, lists)
    {
      var found;
      keys, lists, found := ReadLiteral(pairInv, tripleInv, model[..p], model[p], keys, lists);
      AssembledStep(tripleInv + pairInv, model, p, keys, lists);
      p := p + 1;
    }
    assert model[..|model|] == model;
    groups := Groups(tripleInv + pairInv, model, keys, lists);
  }

  /** [list(set(students)) for students in assigned_tables.values()] */
  method Groups(ghost inv: map<int, Table>, ghost model: seq<int>, keys: seq<int>, lists: map<int, seq<int>>)
    returns (groups: seq<set<int>>)
    requires Assembled(inv, model, keys, lists)
    ensures groups == GroupsOf(inv, DecodedKeys(inv, model))
  {
    groups := seq(|keys|, q requires 0 <= q < |keys| => set x | x in lists[keys[q]]);
    forall q | 0 <= q < |keys| ensures groups[q] == Members(inv[keys[q]]) {
      var k := keys[q];
      assert k in lists;
      assert k in inv && forall x :: x in lists[k] <==> x in Members(inv[k]);
      forall x ensures x in (set y | y in lists[k]) <==> x in Members(inv[k]) {
      }
    }
  }

  /** extract_solution_and_calculate_weights of the fully satisfied SAT
      solver: the groups, and 2 per pair and 3 per triple read. An empty or
      missing model gives ([], 0). */
  method ExtractWithSeatWeights(pairInv: map<int, Table>, tripleInv: map<int, Table>, model: Option<seq<int>>)
    returns (groups: seq<set<int>>, total: int)
    ensures model.None? ==> groups == [] && total == 0
    ensures model.Some? ==>
      groups == GroupsOf(tripleInv + pairInv, DecodedKeys(tripleInv + pairInv, model.value)) &&
      total == SeatSum(DecodedTables(tripleInv + pairInv, model.value))
  {
    if model.None? || model.value == [] {
      return [], 0;
    }
    var literals := model.value;
    ghost var inv := tripleInv + pairInv;
    var keys: seq<int> := [];
    var lists: map<int, seq<int>> := map[];
    total := 0;
    var p := 0;
    while p < |literals|
      invariant 0 <= p <= |literals|
      invariant Assembled(inv, literals[..p], keys, lists)
      invariant total == SeatSum(DecodedTables(inv, literals[..p]))
    {
      var found;
      keys, lists, found := ReadLiteral(pairInv, tripleInv, literals[..p], literals[p], keys, lists);
      AssembledStep(inv, literals, p, keys, lists);
      var add := if found.Some? then (if found.value.Pair? then 16 else 24) else 0;
      SeatTotalStep(inv, literals, p, total, found, add);
      total := total + add;
      p := p + 1;
    }
    assert literals[..|literals|] == literals;
    groups := Groups(inv, literals, keys, lists);
  }

  /** extract_solution_and_calculate_weights of the MaxSAT solvers: the
      groups, and wij.get((i, j), 0) or wijk.get((i, j, k), 0) added for
      every true table id read. A missing or empty solution gives ([], 0). */
  method ExtractWithWeights(pairInv: map<int, Table>, tripleInv: map<int, Table>, w: map<Table, int>,
                            solution: Option<seq<int>>)
    returns (groups: seq<set<int>>, total: int)
    ensures solution.None? ==> groups == [] && total == 0
    ensures solution.Some? ==>
      groups == GroupsOf(tripleInv + pairInv, DecodedKeys(tripleInv + pairInv, solution.value)) &&
      total == TableSum(w, DecodedTables(tripleInv + pairInv, solution.value))
  {
    ghost var inv := tripleInv + pairInv;
    var keys: seq<int> := [];
    var lists: map<int, seq<int>> := map[];
    total := 0;
    if solution.None? {
      return [], 0;
    }
    var literals := solution.value;
    var p := 0;
    while p < |literals|
      invariant 0 <= p <= |literals|
      invariant Assembled(inv, literals[..p], keys, lists)
      invariant total == TableSum(w, DecodedTables(inv, literals[..p]))
    {
      var found;
      keys, lists, found := ReadLiteral(pairInv, tripleInv, literals[..p], literals[p], keys, lists);
      AssembledStep(inv, literals, p, keys, lists);
      var add := if found.Some? then WeightOr0(w, found.value) else 0;
      TableTotalStep(w, inv, literals, p, total, found, add);
      total := total + add;
      p := p + 1;
    }
    assert literals[..|literals|] == literals;
    groups := Groups(inv, literals, keys, lists);
  }

  /** With every table of ts at its full weight, counting 2 or 3 per table
      and adding up the weights agree. */
  lemma {:induction false} SeatSumIsTableSum(w: map<Table, int>, ts: seq<Table>)
    requires forall t :: t in ts ==> t in w && w[t] == FullWeight(t)
    ensures SeatSum(ts) == TableSum(w, ts)
  {
    if ts != [] {
      SeatSumIsTableSum(w, ts[..|ts| - 1]);
    }
  }

  /** The fully satisfied SAT solver prunes every table below its full
      weight, so the 2-or-3 score its decoder reports is the computed weight
      of the chosen tables, and with every student seated it is n (8n
      eighths): one unit per student. */
  lemma FullySatisfiedScore(ids: map<Var, int>, n: nat, w: map<Table, int>, model: seq<int>)
    requires IdsFor(ids, n) && Seated(ids, TrueIds(model), n) && Distinct(model)
    requires forall t :: WellFormed(t, n) ==> t in w
    requires forall t :: WellFormed(t, n) && Chosen(ids, TrueIds(model), t) ==> w[t] == FullWeight(t)
    ensures forall t :: t in Candidates(n) ==> X(t) in ids
    ensures var ts := DecodedTables(Decoder(ids, PairsUpTo(1, n + 1, n + 1), TriplesUpTo(1, n + 1, n + 1)), model);
      SeatSum(ts) == TableSum(w, ts) == 8 * n
  {
    var pairs, triples := PairsUpTo(1, n + 1, n + 1), TriplesUpTo(1, n + 1, n + 1);
    var cands := Candidates(n);
    var A := TrueIds(model);
    CandidatesFacts(n);
    assert forall t :: t in cands ==> X(t) in ids && t in w;
    var inv := Decoder(ids, pairs, triples);
    var ts := DecodedTables(inv, model);
    DecodedTablesFacts(inv, ids, model);
    forall t | t in ts ensures t in w && w[t] == FullWeight(t) {
      assert inv[ids[X(t)]] == t;
    }
    SeatSumIsTableSum(w, ts);
    DecodedWeightIsChosen(ids, pairs, triples, w, model);
    PrunedWeightIsFull(ids, A, w, cands);
    SeatsFill(ids, A, n);
  }

  // ---------------------------------------------------------------------
  // CP-SAT

  /** The extraction in the CP-SAT solve: when the status is OPTIMAL or
      FEASIBLE, sorted([i, j]) for every pair whose variable is 1 and then
      sorted([i, j, k]) for every such triple. */
  method SolvedTables(ids: map<Var, int>, pairs: seq<Table>, triples: seq<Table>, feasible: bool, A: set<int>)
    returns (tables: seq<seq<int>>)
    ensures tables == if feasible then ChosenRows(ids, A, pairs + triples) else []
  {
    tables := [];
    if !feasible {
      return;
    }
    var ts := pairs + triples;
    var p := 0;
    while p < |ts|
      invariant 0 <= p <= |ts|
      invariant tables == ChosenRows(ids, A, ts[..p])
    {
      assert ts[..p + 1][..p] == ts[..p];
      var t := ts[p];
      if X(t) in ids && ids[X(t)] in A {
        tables := tables + [Row(t)];
      }
      p := p + 1;
    }
    assert ts[..|ts|] == ts;
  }

  /** extract_solution_and_calculate_weights of the CP-SAT solver, and
      calculate_assigned_weight: wij[(i, j)] for each reported two-table
      and wijk[(i, j, k)] for each three-table found in the dictionaries. */
  method RescoreTables(w: map<Table, int>, tables: seq<seq<int>>) returns (total: int)
    ensures total == RescoredWeight(w, tables)
  {
    total := 0;
    var p := 0;
    while p < |tables|
      invariant 0 <= p <= |tables|
      invariant total == RescoredWeight(w, tables[..p])
    {
      assert tables[..p + 1][..p] == tables[..p];
      var table := tables[p];
      if |table| == 2 {
        if Pair(table[0], table[1]) in w {
          total := total + w[Pair(table[0], table[1])];
        }
      } else if |table| == 3 {
        if Triple(table[0], table[1], table[2]) in w {
          total := total + w[Triple(table[0], table[1], table[2])];
        }
      }
      p := p + 1;
    }
    assert tables[..|tables|] == tables;
  }
}
