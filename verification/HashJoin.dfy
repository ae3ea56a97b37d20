/** The build/probe hash join: rows of the left input are stored in a list that becomes a hash table. */
module HashJoins {
  import opened FlatMaps
  import opened QueryPlan
  import opened StaticHashtable

  datatype Hashing = Hashing(hash: int -> nat, combine: (nat, nat) -> nat, equals: (int, int) -> bool)

  ghost predicate RespectsEquality(hashing: Hashing)
  {
    forall a, b {:trigger hashing.equals(a, b)} :: hashing.equals(a, b) ==> hashing.hash(a) == hashing.hash(b)
  }

  function SideExps(pairs: seq<(Exp, Exp)>, left: bool): seq<Exp>
  {
    seq(|pairs|, i requires 0 <= i < |pairs| => if left then pairs[i].0 else pairs[i].1)
  }

  ghost predicate Readable(exps: seq<Exp>, row: Row)
  {
    forall k | 0 <= k < |exps| :: CollectRequired(exps[k]) <= row.Keys
  }

  /** The joint hash of all join attributes of one side. */
  ghost function JoinHash(exps: seq<Exp>, row: Row, hashing: Hashing): nat
    requires Readable(exps, row)
  {
    if exps == [] then 0 else
      var h := hashing.hash(Evaluate(exps[|exps| - 1], row));
      if |exps| == 1 then h else hashing.combine(JoinHash(exps[..|exps| - 1], row, hashing), h)
  }

  method GenJoinHash(exps: seq<Exp>, row: Row, hashing: Hashing) returns (seed: nat)
    requires Readable(exps, row)
    ensures seed == JoinHash(exps, row, hashing)
  {
    seed := 0;
    var first := true;
    for i := 0 to |exps|
      invariant first == (i == 0)
      invariant seed == JoinHash(exps[..i], row, hashing)
    {
      var h := hashing.hash(Evaluate(exps[i], row));
      if first {
        seed, first := h, false;
      } else {
        seed := hashing.combine(seed, h);
      }
      assert exps[..i + 1][..i] == exps[..i];
    }
    assert exps[..|exps|] == exps;
  }

  /** Rows that match have the same joint hash. */
  lemma {:induction false} MatchingRowsHashAlike(pairs: seq<(Exp, Exp)>, l: Row, r: Row, hashing: Hashing)
    requires RespectsEquality(hashing) && Matches(pairs, hashing.equals, l, r)
    ensures Readable(SideExps(pairs, true), l) && Readable(SideExps(pairs, false), r)
    ensures JoinHash(SideExps(pairs, true), l, hashing) == JoinHash(SideExps(pairs, false), r, hashing)
  {
    if pairs != [] {
      var front, last := pairs[..|pairs| - 1], |pairs| - 1;
      MatchingRowsHashAlike(front, l, r, hashing);
      assert SideExps(pairs, true)[..last] == SideExps(front, true);
      assert SideExps(pairs, false)[..last] == SideExps(front, false);
      assert hashing.equals(Evaluate(pairs[last].0, l), Evaluate(pairs[last].1, r));
    }
  }

  lemma {:induction false} JoinHashOfAgreeing(exps: seq<Exp>, r: Row, s: Row, hashing: Hashing)
    requires forall k | 0 <= k < |exps| :: Agree(CollectRequired(exps[k]), r, s)
    ensures Readable(exps, r) && Readable(exps, s) && JoinHash(exps, r, hashing) == JoinHash(exps, s, hashing)
  {
    if exps != [] {
      JoinHashOfAgreeing(exps[..|exps| - 1], r, s, hashing);
      EvaluateDependsOnRequired(exps[|exps| - 1], r, s);
    }
  }

  /** Pruning to columns that cover one side of the pairs changes neither the matches nor the hash. */
  lemma PrunedSidesMatchAlike(pairs: seq<(Exp, Exp)>, l: Row, r: Row, left: set<IU>, right: set<IU>,
                              equals: (int, int) -> bool)
    requires PairsScoped(pairs, left, right) && left <= l.Keys && right <= r.Keys
    ensures Matches(pairs, equals, Project(l, left), Project(r, right)) == Matches(pairs, equals, l, r)
  {
    forall k | 0 <= k < |pairs|
      ensures CollectRequired(pairs[k].0) <= left && CollectRequired(pairs[k].1) <= right
      ensures Evaluate(pairs[k].0, Project(l, left)) == Evaluate(pairs[k].0, l)
      ensures Evaluate(pairs[k].1, Project(r, right)) == Evaluate(pairs[k].1, r)
    {
      assert pairs[k] in pairs;
      EvaluateDependsOnRequired(pairs[k].0, Project(l, left), l);
      EvaluateDependsOnRequired(pairs[k].1, Project(r, right), r);
    }
  }

  // ----- what the stored nodes stand for

  ghost predicate Stores(node: ListNode<seq<int>>, row: Row, mapping: map<IU, nat>, exps: seq<Exp>, hashing: Hashing)
  {
    && (forall iu | iu in mapping :: mapping[iu] < |node.tuple|)
    && row == Loaded(node.tuple, mapping)
    && Readable(exps, row) && node.hashCode == JoinHash(exps, row, hashing)
  }

  function Loaded(tuple: seq<int>, mapping: map<IU, nat>): Row
    requires forall iu | iu in mapping :: mapping[iu] < |tuple|
  {
    map iu | iu in mapping :: tuple[mapping[iu]]
  }

  predicate LoadsTo(tuple: seq<int>, mapping: map<IU, nat>, row: Row)
  {
    (forall iu | iu in mapping :: mapping[iu] < |tuple|) && row == Loaded(tuple, mapping)
  }

  /** The rows of the nodes with hash code `h`, the latest first. */
  ghost function RowsWithHash(nodes: seq<ListNode<seq<int>>>, rows: seq<Row>, h: nat): seq<Row>
    requires |nodes| == |rows|
  {
    if nodes == [] then [] else
      var last := |nodes| - 1;
      var rest := RowsWithHash(nodes[..last], rows[..last], h);
      if nodes[last].hashCode == h then [rows[last]] + rest else rest
  }

  lemma {:induction false} TuplesLoadToRows(nodes: seq<ListNode<seq<int>>>, rows: seq<Row>, h: nat,
                                            mapping: map<IU, nat>, exps: seq<Exp>, hashing: Hashing)
    requires |nodes| == |rows|
    requires forall k | 0 <= k < |nodes| :: Stores(nodes[k], rows[k], mapping, exps, hashing)
    ensures var tuples, found := TuplesOf(WithHash(nodes, h)), RowsWithHash(nodes, rows, h);
            |tuples| == |found| && forall k | 0 <= k < |found| :: LoadsTo(tuples[k], mapping, found[k])
  {
    if nodes != [] {
      hide Loaded, JoinHash, Readable;
      var last := |nodes| - 1;
      TuplesLoadToRows(nodes[..last], rows[..last], h, mapping, exps, hashing);
      assert Stores(nodes[last], rows[last], mapping, exps, hashing);
      assert LoadsTo(nodes[last].tuple, mapping, rows[last]);
      var rest := WithHash(nodes[..last], h);
      if nodes[last].hashCode == h {
        assert TuplesOf([nodes[last]] + rest) == [nodes[last].tuple] + TuplesOf(rest);
      }
    }
  }

  /** Looking only at the nodes with the probe's hash loses no match. */
  lemma {:induction false} OtherHashesDoNotMatch(nodes: seq<ListNode<seq<int>>>, rows: seq<Row>, h: nat,
                                                 mapping: map<IU, nat>, exps: seq<Exp>, hashing: Hashing,
                                                 f: Row -> seq<Row>)
    requires |nodes| == |rows|
    requires forall k | 0 <= k < |nodes| :: Stores(nodes[k], rows[k], mapping, exps, hashing)
    requires forall k | 0 <= k < |nodes| :: nodes[k].hashCode != h ==> f(rows[k]) == []
    ensures multiset(FlatMap(RowsWithHash(nodes, rows, h), f)) == multiset(FlatMap(rows, f))
  {
    if nodes != [] {
      var last := |nodes| - 1;
      OtherHashesDoNotMatch(nodes[..last], rows[..last], h, mapping, exps, hashing, f);
      FlatMapConcat([rows[last]], RowsWithHash(nodes[..last], rows[..last], h), f);
      FlatMapOne(rows[last], f);
    }
  }

  class HashJoin {
    const pairs: seq<(Exp, Exp)>
    const hashing: Hashing
    const buildSet: set<IU>
    const probeSet: set<IU>
    const storedColumns: seq<IU>
    const tupleMapping: map<IU, nat>
    const list: JoinList<seq<int>>
    var joinTable: StaticHashtable?<seq<int>>
    ghost var stored: seq<Row>

    ghost predicate Fits()
    {
      && PairsScoped(pairs, buildSet, probeSet) && RespectsEquality(hashing)
      && tupleMapping.Keys == buildSet && (forall c | c in storedColumns :: c in buildSet)
      && forall iu | iu in tupleMapping ::
           tupleMapping[iu] < |storedColumns| && storedColumns[tupleMapping[iu]] == iu
    }

    ghost predicate StoresRows()
      reads this, list
    {
      && |list.nodes| == |stored|
      && forall k {:trigger stored[k]} | 0 <= k < |stored| ::
           Stores(list.nodes[k], stored[k], tupleMapping, SideExps(pairs, true), hashing)
    }

    ghost predicate Building()
      reads this, list, list.nodes
    {
      Fits() && StoresRows() && list.Valid()
    }

    ghost predicate Probing()
      reads this, list, if joinTable == null then {} else {joinTable.table}, list.nodes
    {
      && Fits() && StoresRows() && joinTable != null
      && joinTable.nodes == list.nodes && joinTable.Valid()
    }

    constructor (pairs: seq<(Exp, Exp)>, hashing: Hashing, buildSet: set<IU>, probeSet: set<IU>)
      requires PairsScoped(pairs, buildSet, probeSet) && RespectsEquality(hashing)
      ensures Building() && stored == [] && fresh(list) && list.nodes == []
      ensures this.pairs == pairs && this.hashing == hashing
      ensures this.buildSet == buildSet && this.probeSet == probeSet
    {
      var columns: seq<IU>, mapping: map<IU, nat>, rest := [], map[], buildSet;
      while rest != {}
        invariant mapping.Keys == buildSet - rest && rest <= buildSet
        invariant forall c | c in columns :: c in buildSet
        invariant forall iu | iu in mapping :: mapping[iu] < |columns| && columns[mapping[iu]] == iu
        decreases |rest|
      {
        var iu :| iu in rest;
        mapping := mapping[iu := |columns|];
        columns := columns + [iu];
        rest := rest - {iu};
      }
      this.pairs, this.hashing, this.buildSet, this.probeSet := pairs, hashing, buildSet, probeSet;
      storedColumns, tupleMapping := columns, mapping;
      list := new JoinList();
      joinTable := null;
      stored := [];
    }

    /** What is stored of an incoming row stands for its projection to the build columns. */
    lemma StoredRow(node: ListNode<seq<int>>, values: Row)
      requires Fits() && buildSet <= values.Keys && |node.tuple| == |storedColumns|
      requires forall k | 0 <= k < |storedColumns| ::
                 storedColumns[k] in values && node.tuple[k] == values[storedColumns[k]]
      requires Readable(SideExps(pairs, true), values)
      requires node.hashCode == JoinHash(SideExps(pairs, true), values, hashing)
      ensures Stores(node, Project(values, buildSet), tupleMapping, SideExps(pairs, true), hashing)
    {
      var exps, row := SideExps(pairs, true), Project(values, buildSet);
      assert row == Loaded(node.tuple, tupleMapping);
      forall k | 0 <= k < |exps| ensures Agree(CollectRequired(exps[k]), values, row) {
        assert pairs[k] in pairs;
      }
      JoinHashOfAgreeing(exps, values, row, hashing);
    }

    lemma BuildSideIsReadable(values: Row)
      requires PairsScoped(pairs, buildSet, probeSet) && buildSet <= values.Keys
      ensures Readable(SideExps(pairs, true), values)
    {
      forall k | 0 <= k < |pairs| ensures CollectRequired(pairs[k].0) <= values.Keys {
        assert pairs[k] in pairs;
      }
    }

    lemma ProbeSideIsReadable(values: Row)
      requires PairsScoped(pairs, buildSet, probeSet) && probeSet <= values.Keys
      ensures Readable(SideExps(pairs, false), values)
    {
      forall k | 0 <= k < |pairs| ensures CollectRequired(pairs[k].1) <= values.Keys {
        assert pairs[k] in pairs;
      }
    }

    method ConsumeLeft(values: Row)
      requires Building() && buildSet <= values.Keys
      modifies this`stored, list, list.nodes
      ensures Building() && stored == old(stored) + [Project(values, buildSet)]
      ensures |list.nodes| == |old(list.nodes)| + 1 && list.nodes[..|old(list.nodes)|] == old(list.nodes)
      ensures fresh(list.nodes[|old(list.nodes)|])
    {
      var tuple: seq<int> := [];
      for i := 0 to |storedColumns|
        invariant |tuple| == i
        invariant forall k | 0 <= k < i :: storedColumns[k] in values && tuple[k] == values[storedColumns[k]]
      {
        assert storedColumns[i] in buildSet;
        tuple := tuple + [values[storedColumns[i]]];
      }
      BuildSideIsReadable(values);
      var h := GenJoinHash(SideExps(pairs, true), values, hashing);
      list.Append(h, tuple);
      stored := stored + [Project(values, buildSet)];
      StoredRow(list.nodes[|list.nodes| - 1], values);
      assert forall k | 0 <= k < |old(list.nodes)| :: list.nodes[k] == list.nodes[..|old(list.nodes)|][k];
    }

    /** The list becomes the table; its length must not be 0. */
    method BuildTable()
      requires Building() && stored != []
      modifies this`joinTable, list.nodes
      ensures Probing() && stored == old(stored) && list.nodes == old(list.nodes) && fresh(joinTable.table)
    {
      joinTable := new StaticHashtable(list.first, list.len, list.nodes);
    }

    /** Loads the stored tuple, compares all pairs and merges both sides when they are equal. */
    method ProbeCandidate(tuple: seq<int>, incoming: Row) returns (out: seq<Row>)
      requires Fits() && probeSet <= incoming.Keys
      requires forall iu | iu in tupleMapping :: tupleMapping[iu] < |tuple|
      ensures out == JoinWith(pairs, hashing.equals, Project(incoming, probeSet))(Loaded(tuple, tupleMapping))
    {
      var values := Loaded(tuple, tupleMapping);
      BuildSideIsReadable(values);
      ProbeSideIsReadable(incoming);
      var matches := true;
      for i := 0 to |pairs|
        invariant matches == Matches(pairs[..i], hashing.equals, values, incoming)
      {
        assert pairs[i] in pairs;
        assert forall k | 0 <= k < i :: pairs[..i + 1][k] == pairs[..i][k];
        assert pairs[..i + 1][i] == pairs[i];
        matches := matches && hashing.equals(Evaluate(pairs[i].0, values), Evaluate(pairs[i].1, incoming));
      }
      assert pairs[..|pairs|] == pairs;
      out := if matches then [values + Project(incoming, probeSet)] else [];
      assert Project(values, buildSet) == values;
      PrunedSidesMatchAlike(pairs, values, incoming, buildSet, probeSet, hashing.equals);
    }

    /** Visits the nodes with the row's hash; emits what the nested loop over all stored rows emits. */
    method ConsumeRight(incoming: Row) returns (out: seq<Row>)
      requires Probing() && probeSet <= incoming.Keys
      ensures multiset(out)
           == multiset(FlatMap(stored, JoinWith(pairs, hashing.equals, Project(incoming, probeSet))))
    {
      ghost var f := JoinWith(pairs, hashing.equals, Project(incoming, probeSet));
      ProbeSideIsReadable(incoming);
      var h := GenJoinHash(SideExps(pairs, false), incoming, hashing);
      var tuples := joinTable.Matches(h);
      ghost var found := RowsWithHash(list.nodes, stored, h);
      TuplesLoadToRows(list.nodes, stored, h, tupleMapping, SideExps(pairs, true), hashing);
      out := [];
      for i := 0 to |tuples|
        invariant out == FlatMap(found[..i], f)
      {
        assert LoadsTo(tuples[i], tupleMapping, found[i]);
        var candidates := ProbeCandidate(tuples[i], incoming);
        out := out + candidates;
        assert found[..i + 1][..i] == found[..i];
      }
      assert found[..|tuples|] == found;
      OnlyThisHashMatches(incoming, h);
      OtherHashesDoNotMatch(list.nodes, stored, h, tupleMapping, SideExps(pairs, true), hashing, f);
    }

    lemma OnlyThisHashMatches(incoming: Row, h: nat)
      requires Fits() && StoresRows() && probeSet <= incoming.Keys
      requires Readable(SideExps(pairs, false), incoming)
      requires h == JoinHash(SideExps(pairs, false), incoming, hashing)
      ensures forall k | 0 <= k < |stored| && list.nodes[k].hashCode != h ::
                JoinWith(pairs, hashing.equals, Project(incoming, probeSet))(stored[k]) == []
    {
      forall k | 0 <= k < |stored| && list.nodes[k].hashCode != h
        ensures JoinWith(pairs, hashing.equals, Project(incoming, probeSet))(stored[k]) == []
      {
        assert Project(stored[k], buildSet) == stored[k];
        PrunedSidesMatchAlike(pairs, stored[k], incoming, buildSet, probeSet, hashing.equals);
        if Matches(pairs, hashing.equals, stored[k], incoming) {
          MatchingRowsHashAlike(pairs, stored[k], incoming, hashing);
        }
      }
    }
  }
}
