/** The branching store as a state machine over rows, and the naive store it refines: one in which
    every branch owns a private copy of every table, taken from its parent at its creation. */
module PrivateCopies {
  import opened Wrappers
  import opened Lineage
  import opened VersionLog

  datatype Op =
    | CreateTable(table: string)
    | CreateBranch(parent: nat)
    | Insert(table: string, branch: nat, value: Tuple)
    | Update(table: string, branch: nat, tid: nat, value: Tuple)
    | Delete(table: string, branch: nat, tid: nat)

  // ----- the shared store

  datatype Store = Store(parents: seq<nat>, tables: map<string, seq<VersionedRow>>)

  const EMPTY_STORE := Store([INVALID_BRANCH], map[])

  /** Tables, branches and rows have to exist; a row need not be marked for the branch. */
  predicate Legal(s: Store, op: Op)
  {
    match op
    case CreateTable(t) => t !in s.tables
    case CreateBranch(p) => |s.parents| < INVALID_BRANCH && (p == INVALID_BRANCH || p < |s.parents|)
    case Insert(t, b, _) => t in s.tables && b < |s.parents|
    case Update(t, b, tid, _) => RowExists(s, t, b, tid)
    case Delete(t, b, tid) => RowExists(s, t, b, tid)
  }

  predicate RowExists(s: Store, t: string, b: nat, tid: nat)
  {
    t in s.tables && b < |s.parents| && tid < |s.tables[t]|
  }

  predicate ScanWouldProduce(s: Store, t: string, b: nat, tid: nat)
  {
    t in s.tables && b < |s.parents| && tid < |s.tables[t]|
    && b < |s.tables[t][tid].bits| && s.tables[t][tid].bits[b]
  }

  /** An update of a row in which the branch resolves no version throws and changes nothing. */
  predicate Throws(row: VersionedRow, parents: seq<nat>, b: nat)
    requires Forest(parents) && b < |parents|
  {
    b != MASTER_BRANCH && Resolve(row.log, b, LineageOf(parents, b)).None?
  }

  function WrittenRow(row: VersionedRow, parents: seq<nat>, b: nat, v: Tuple): VersionedRow
    requires Forest(parents) && b < |parents|
  {
    if Throws(row, parents, b) then row else UpdateRow(row, |parents|, b, v)
  }

  function Step(s: Store, op: Op): Store
    requires StoreInv(s) && Legal(s, op)
  {
    var n := |s.parents|;
    match op
    case CreateTable(t) => s.(tables := s.tables[t := []])
    case CreateBranch(p) =>
      Store(s.parents + [p], map t | t in s.tables ::
        assert RowsInv(s.tables[t], n);
        BranchRows(s.tables[t], n, p))
    case Insert(t, b, v) => s.(tables := s.tables[t := s.tables[t] + [InsertRow(n, b, v)]])
    case Update(t, b, tid, v) =>
      s.(tables := s.tables[t := s.tables[t][tid := WrittenRow(s.tables[t][tid], s.parents, b, v)]])
    case Delete(t, b, tid) =>
      assert RowsInv(s.tables[t], n);
      s.(tables := s.tables[t := s.tables[t][tid := DeleteRow(s.tables[t][tid], b)]])
  }

  ghost predicate StoreInv(s: Store)
  {
    && Forest(s.parents)
    && forall t {:trigger RowsInv(s.tables[t], |s.parents|)} | t in s.tables :: RowsInv(s.tables[t], |s.parents|)
  }

  lemma StepKeepsInv(s: Store, op: Op)
    requires StoreInv(s) && Legal(s, op)
    ensures StoreInv(Step(s, op))
  {
    var n, after := |s.parents|, Step(s, op);
    forall t | t in s.tables ensures RowsInv(s.tables[t], n) {}
    match op
    case CreateTable(t) =>
    case CreateBranch(p) =>
      forall t | t in after.tables ensures RowsInv(after.tables[t], n + 1) {
        BranchKeepsInv(s.tables[t], n, p);
      }
    case Insert(t, b, v) => InsertKeepsRowsInv(s.tables[t], n, b, v);
    case Update(t, b, tid, v) =>
      UpdateKeepsRowsInv(s.tables[t], n, tid, b, v);
      assert s.tables[t][tid := s.tables[t][tid]] == s.tables[t];
    case Delete(t, b, tid) => DeleteKeepsRowsInv(s.tables[t], n, tid, b);
  }

  ghost predicate StoreCovered(s: Store)
  {
    forall t | t in s.tables :: AllCovered(s.tables[t])
  }

  /** While master only updates rows that a scan of master produced, the lineage filter knows every
      writer of every row. */
  lemma StepKeepsWritersCovered(s: Store, op: Op)
    requires StoreInv(s) && Legal(s, op) && StoreCovered(s)
    requires op.Update? && op.branch == MASTER_BRANCH ==> ScanWouldProduce(s, op.table, op.branch, op.tid)
    ensures StoreCovered(Step(s, op))
  {
    match op
    case Insert(t, b, v) => InsertKeepsInv(|s.parents|, b, v);
    case Update(t, b, tid, v) =>
      assert RowsInv(s.tables[t], |s.parents|);
      assert RowInv(s.tables[t][tid], |s.parents|);
      UpdateKeepsInv(s.tables[t][tid], |s.parents|, b, v);
    case CreateBranch(p) =>
      forall t | t in s.tables ensures AllCovered(Step(s, op).tables[t]) {
        assert RowsInv(s.tables[t], |s.parents|) && AllCovered(s.tables[t]);
      }
    case _ =>
  }

  /** What a query on branch `b` finds in a table. */
  function ScanTable(rows: seq<VersionedRow>, parents: seq<nat>, b: nat): Option<seq<(nat, Tuple)>>
    requires Forest(parents) && RowsInv(rows, |parents|) && b < |parents|
  {
    ScanRows(rows, b, LineageOf(parents, b), |rows|)
  }

  // ----- the naive store

  /** `copies[b]` is branch b's private copy; `count` is the next tuple id. */
  datatype Table = Table(count: nat, copies: seq<map<nat, Tuple>>)

  datatype Naive = Naive(branches: nat, tables: map<string, Table>)

  const EMPTY_NAIVE := Naive(1, map[])

  predicate NaiveLegal(m: Naive, op: Op)
  {
    match op
    case CreateTable(t) => t !in m.tables
    case CreateBranch(p) => m.branches < INVALID_BRANCH && (p == INVALID_BRANCH || p < m.branches)
    case Insert(t, b, _) => t in m.tables && b < m.branches
    case Update(t, b, tid, _) => t in m.tables && b < m.branches && tid < m.tables[t].count
    case Delete(t, b, tid) => t in m.tables && b < m.branches && tid < m.tables[t].count
  }

  predicate NaiveInv(m: Naive)
  {
    && 1 <= m.branches
    && (forall t | t in m.tables :: |m.tables[t].copies| == m.branches)
    && (forall t, b, tid | t in m.tables && 0 <= b < |m.tables[t].copies| && tid in m.tables[t].copies[b] ::
          tid < m.tables[t].count)
  }

  function NaiveStep(m: Naive, op: Op): (r: Naive)
    requires NaiveInv(m) && NaiveLegal(m, op)
    ensures NaiveInv(r)
  {
    match op
    case CreateTable(t) => m.(tables := m.tables[t := Table(0, seq(m.branches, _ => map[]))])
    case CreateBranch(p) => Naive(m.branches + 1, map t | t in m.tables :: NaiveBranch(m.tables[t], p))
    case Insert(t, b, v) =>
      var count := m.tables[t].count;
      m.(tables := m.tables[t := Table(count + 1, Written(m.tables[t].copies, b, count, v))])
    case Update(t, b, tid, v) =>
      var copies := m.tables[t].copies;
      if tid !in copies[b] then m
      else m.(tables := m.tables[t := m.tables[t].(copies := Written(copies, b, tid, v))])
    case Delete(t, b, tid) =>
      var copies := m.tables[t].copies;
      m.(tables := m.tables[t := m.tables[t].(copies := copies[b := copies[b] - {tid}])])
  }

  function Written(copies: seq<map<nat, Tuple>>, b: nat, tid: nat, v: Tuple): seq<map<nat, Tuple>>
    requires b < |copies|
  {
    var mine: map<nat, Tuple> := copies[b][tid := v];
    copies[b := mine]
  }

  function NaiveBranch(t: Table, parent: nat): Table
    requires parent == INVALID_BRANCH || parent < |t.copies|
  {
    t.(copies := t.copies + [if parent == INVALID_BRANCH then map[] else t.copies[parent]])
  }

  /** The tuples with ids below `n` of a private copy, in the order of their ids. */
  function Listing(copy: map<nat, Tuple>, n: nat): seq<(nat, Tuple)>
  {
    if n == 0 then []
    else if n - 1 in copy then Listing(copy, n - 1) + [(n - 1, copy[n - 1])]
    else Listing(copy, n - 1)
  }

  /** A listing holds exactly the tuples of the copy, by increasing ids. */
  lemma {:induction false} ListingMeaning(copy: map<nat, Tuple>, n: nat)
    ensures forall tid, v :: (tid, v) in Listing(copy, n) <==> tid < n && tid in copy && copy[tid] == v
    ensures forall i, j | 0 <= i < j < |Listing(copy, n)| :: Listing(copy, n)[i].0 < Listing(copy, n)[j].0
  {
    if n > 0 {
      ListingMeaning(copy, n - 1);
      var front := Listing(copy, n - 1);
      assert forall i | 0 <= i < |front| :: (front[i].0, front[i].1) in front;
    }
  }

  // ----- refinement

  /** The row `tid` reads, in every branch, what that branch's private copy holds. */
  predicate RowRefines(row: VersionedRow, parents: seq<nat>, tid: nat, copies: seq<map<nat, Tuple>>)
    requires Forest(parents) && RowInv(row, |parents|) && |copies| == |parents|
  {
    forall b | 0 <= b < |parents| ::
      && (row.bits[b] <==> tid in copies[b])
      && (row.bits[b] ==> Latest(row, b, LineageOf(parents, b)) == Some(copies[b][tid]))
  }

  predicate TableRefines(rows: seq<VersionedRow>, parents: seq<nat>, t: Table)
    requires Forest(parents) && RowsInv(rows, |parents|)
  {
    && t.count == |rows|
    && |t.copies| == |parents|
    && (forall tid {:trigger RowRefines(rows[tid], parents, tid, t.copies)} | 0 <= tid < |rows| ::
          RowRefines(rows[tid], parents, tid, t.copies))
    && (forall b, tid | 0 <= b < |t.copies| && tid in t.copies[b] :: tid < t.count)
  }

  predicate Refines(s: Store, m: Naive)
    requires StoreInv(s)
  {
    && |s.parents| == m.branches
    && s.tables.Keys == m.tables.Keys
    && forall t {:trigger TableRefines(s.tables[t], s.parents, m.tables[t])} | t in s.tables ::
         TableRefines(s.tables[t], s.parents, m.tables[t])
  }

  /** The two stores allow the same operations. */
  lemma LegalAgrees(s: Store, m: Naive, op: Op)
    requires StoreInv(s) && Refines(s, m)
    ensures NaiveInv(m) && (Legal(s, op) <==> NaiveLegal(m, op))
  {
    forall t | t in m.tables
      ensures |m.tables[t].copies| == m.branches
      ensures forall b, tid | 0 <= b < m.branches && tid in m.tables[t].copies[b] :: tid < m.tables[t].count
    {
      assert TableRefines(s.tables[t], s.parents, m.tables[t]);
    }
    if (op.Update? || op.Delete?) && op.table in s.tables {
      assert TableRefines(s.tables[op.table], s.parents, m.tables[op.table]);
    }
  }

  lemma InsertRefines(rows: seq<VersionedRow>, parents: seq<nat>, t: Table, b: nat, v: Tuple)
    requires Forest(parents) && RowsInv(rows, |parents|) && TableRefines(rows, parents, t) && b < |parents|
    requires RowsInv(rows + [InsertRow(|parents|, b, v)], |parents|)
    ensures TableRefines(rows + [InsertRow(|parents|, b, v)], parents,
                         Table(t.count + 1, Written(t.copies, b, t.count, v)))
  {
    var copies := Written(t.copies, b, t.count, v);
    var after := rows + [InsertRow(|parents|, b, v)];
    forall tid | 0 <= tid < |after| ensures RowRefines(after[tid], parents, tid, copies) {
      if tid < |rows| {
        assert RowRefines(rows[tid], parents, tid, t.copies);
      } else {
        assert Visible(after[tid].log[0], b, LineageOf(parents, b));
      }
    }
  }

  lemma UpdateRefines(rows: seq<VersionedRow>, parents: seq<nat>, t: Table, b: nat, tid: nat, v: Tuple)
    requires Forest(parents) && RowsInv(rows, |parents|) && TableRefines(rows, parents, t)
    requires b < |parents| && tid < |rows|
    requires RowsInv(rows[tid := UpdateRow(rows[tid], |parents|, b, v)], |parents|)
    ensures b < |t.copies|
    ensures TableRefines(rows[tid := UpdateRow(rows[tid], |parents|, b, v)], parents,
                         if tid in t.copies[b] then t.(copies := Written(t.copies, b, tid, v)) else t)
  {
    var copies := if tid in t.copies[b] then Written(t.copies, b, tid, v) else t.copies;
    var after := rows[tid := UpdateRow(rows[tid], |parents|, b, v)];
    forall k | 0 <= k < |after| ensures RowRefines(after[k], parents, k, copies) {
      assert RowInv(rows[k], |parents|) && RowInv(after[k], |parents|);
      assert RowRefines(rows[k], parents, k, t.copies);
      if k == tid {
        forall c | 0 <= c < |parents| && rows[tid].bits[c]
          ensures Latest(after[tid], c, LineageOf(parents, c)) == Some(copies[c][tid])
        {
          UpdateIsolation(rows[tid], parents, b, v, c);
        }
      }
    }
  }

  /** A row that throws on an update is not in the private copy. */
  lemma ThrowingRowIsAbsent(rows: seq<VersionedRow>, parents: seq<nat>, t: Table, b: nat, tid: nat)
    requires Forest(parents) && RowsInv(rows, |parents|) && TableRefines(rows, parents, t)
    requires b < |parents| && tid < |rows| && Throws(rows[tid], parents, b)
    ensures tid !in t.copies[b]
  {
    assert RowInv(rows[tid], |parents|);
    assert RowRefines(rows[tid], parents, tid, t.copies);
  }

  lemma DeleteRefines(rows: seq<VersionedRow>, parents: seq<nat>, t: Table, b: nat, tid: nat)
    requires Forest(parents) && RowsInv(rows, |parents|) && TableRefines(rows, parents, t)
    requires b < |parents| && tid < |rows|
    requires RowsInv(rows[tid := DeleteRow(rows[tid], b)], |parents|)
    ensures TableRefines(rows[tid := DeleteRow(rows[tid], b)], parents,
                         t.(copies := t.copies[b := t.copies[b] - {tid}]))
  {
    var copies := t.copies[b := t.copies[b] - {tid}];
    var after := rows[tid := DeleteRow(rows[tid], b)];
    forall k | 0 <= k < |after| ensures RowRefines(after[k], parents, k, copies) {
      assert RowInv(rows[k], |parents|) && RowInv(after[k], |parents|);
      assert RowRefines(rows[k], parents, k, t.copies);
    }
  }

  lemma BranchRowRefines(row: VersionedRow, parents: seq<nat>, tid: nat, t: Table, p: nat)
    requires Forest(parents) && Forest(parents + [p]) && RowInv(row, |parents|)
    requires |t.copies| == |parents| && RowRefines(row, parents, tid, t.copies)
    requires p == INVALID_BRANCH || p < |parents|
    requires RowInv(BranchRow(row, p), |parents| + 1)
    ensures RowRefines(BranchRow(row, p), parents + [p], tid, NaiveBranch(t, p).copies)
  {
    var forest := parents + [p];
    var r := BranchRow(row, p);
    forall b | 0 <= b < |forest| && r.bits[b]
      ensures Latest(r, b, LineageOf(forest, b)) == Some(NaiveBranch(t, p).copies[b][tid])
    {
      if b < |parents| {
        LineageIsStable(parents, p, b);
        assert row.bits[b];
      } else {
        BranchResolvesAsParent(row, parents, p);
        assert row.bits[p];
      }
    }
  }

  lemma BranchRefines(rows: seq<VersionedRow>, parents: seq<nat>, t: Table, p: nat)
    requires Forest(parents) && Forest(parents + [p]) && RowsInv(rows, |parents|) && TableRefines(rows, parents, t)
    requires p == INVALID_BRANCH || p < |parents|
    requires RowsInv(BranchRows(rows, |parents|, p), |parents| + 1)
    ensures TableRefines(BranchRows(rows, |parents|, p), parents + [p], NaiveBranch(t, p))
  {
    var after := BranchRows(rows, |parents|, p);
    forall tid | 0 <= tid < |after| ensures RowRefines(after[tid], parents + [p], tid, NaiveBranch(t, p).copies) {
      assert RowRefines(rows[tid], parents, tid, t.copies);
      BranchRowRefines(rows[tid], parents, tid, t, p);
    }
  }

  /** Only table `t` was written to. */
  lemma ReplacedTableRefines(s: Store, m: Naive, t: string, rows: seq<VersionedRow>, table: Table)
    requires StoreInv(s) && Refines(s, m) && StoreInv(s.(tables := s.tables[t := rows]))
    requires RowsInv(rows, |s.parents|) && TableRefines(rows, s.parents, table)
    ensures Refines(s.(tables := s.tables[t := rows]), m.(tables := m.tables[t := table]))
  {
    hide TableRefines, RowsInv;
  }

  lemma BranchedStoreRefines(s: Store, m: Naive, p: nat)
    requires StoreInv(s) && Refines(s, m) && Legal(s, CreateBranch(p)) && StoreInv(Step(s, CreateBranch(p)))
    requires NaiveInv(m) && NaiveLegal(m, CreateBranch(p))
    ensures Refines(Step(s, CreateBranch(p)), NaiveStep(m, CreateBranch(p)))
  {
    hide TableRefines, RowsInv;
    var s', m' := Step(s, CreateBranch(p)), NaiveStep(m, CreateBranch(p));
    forall u | u in s'.tables ensures TableRefines(s'.tables[u], s'.parents, m'.tables[u]) {
      assert RowsInv(s'.tables[u], |s'.parents|);
      BranchRefines(s.tables[u], s.parents, m.tables[u], p);
    }
  }

  /** Every operation on the shared store does what the naive store does. */
  lemma StepRefines(s: Store, m: Naive, op: Op)
    requires StoreInv(s) && Refines(s, m) && Legal(s, op)
    ensures NaiveInv(m) && NaiveLegal(m, op)
    ensures StoreInv(Step(s, op)) && Refines(Step(s, op), NaiveStep(m, op))
  {
    LegalAgrees(s, m, op);
    StepKeepsInv(s, op);
    if op.CreateBranch? {
      BranchedStoreRefines(s, m, op.parent);
    } else {
      WrittenTableRefines(s, m, op);
      var t := op.table;
      ReplacedTableRefines(s, m, t, Step(s, op).tables[t], NaiveStep(m, op).tables[t]);
      OneTableIsWritten(s, m, op);
    }
  }

  lemma OneTableIsWritten(s: Store, m: Naive, op: Op)
    requires StoreInv(s) && Legal(s, op) && NaiveInv(m) && NaiveLegal(m, op) && !op.CreateBranch?
    ensures op.table in Step(s, op).tables && op.table in NaiveStep(m, op).tables
    ensures Step(s, op) == s.(tables := s.tables[op.table := Step(s, op).tables[op.table]])
    ensures NaiveStep(m, op) == m.(tables := m.tables[op.table := NaiveStep(m, op).tables[op.table]])
  {
  }

  /** The table that the operation writes to, before and after. */
  lemma WrittenTableRefines(s: Store, m: Naive, op: Op)
    requires StoreInv(s) && Refines(s, m) && Legal(s, op) && NaiveInv(m) && NaiveLegal(m, op) && !op.CreateBranch?
    requires StoreInv(Step(s, op))
    ensures op.table in Step(s, op).tables && op.table in NaiveStep(m, op).tables
    ensures RowsInv(Step(s, op).tables[op.table], |s.parents|)
    ensures TableRefines(Step(s, op).tables[op.table], s.parents, NaiveStep(m, op).tables[op.table])
  {
    var s', t := Step(s, op), op.table;
    assert RowsInv(s'.tables[t], |s'.parents|);
    match op
    case CreateTable(_) =>
    case Insert(_, b, v) => InsertRefines(s.tables[t], s.parents, m.tables[t], b, v);
    case Update(_, b, tid, v) =>
      if Throws(s.tables[t][tid], s.parents, b) {
        ThrowingRowIsAbsent(s.tables[t], s.parents, m.tables[t], b, tid);
        assert s.tables[t][tid := s.tables[t][tid]] == s.tables[t];
      } else {
        UpdateRefines(s.tables[t], s.parents, m.tables[t], b, tid, v);
      }
    case Delete(_, b, tid) => DeleteRefines(s.tables[t], s.parents, m.tables[t], b, tid);
  }

  /** One step of the naive store. */
  predicate Follows(m: Naive, op: Op, after: Naive)
  {
    NaiveInv(m) && NaiveLegal(m, op) && after == NaiveStep(m, op)
  }

  /** One step of the shared store. */
  ghost predicate StoreFollows(s: Store, op: Op, after: Store)
  {
    StoreInv(s) && Legal(s, op) && after == Step(s, op)
  }

  /** The bitmap agrees with the chains: where a bit is set, the branch resolves a version, so an
      update of the row does not throw. */
  lemma SetBitResolves(s: Store, m: Naive, t: string, b: nat, tid: nat)
    requires StoreInv(s) && Refines(s, m) && ScanWouldProduce(s, t, b, tid)
    ensures !Throws(s.tables[t][tid], s.parents, b)
    ensures t in m.tables && b < |m.tables[t].copies| && tid in m.tables[t].copies[b]
  {
    assert RowsInv(s.tables[t], |s.parents|);
    assert RowInv(s.tables[t][tid], |s.parents|);
    assert TableRefines(s.tables[t], s.parents, m.tables[t]);
    assert RowRefines(s.tables[t][tid], s.parents, tid, m.tables[t].copies);
  }

  lemma {:induction false} ScanIsListing(rows: seq<VersionedRow>, parents: seq<nat>, b: nat, t: Table, n: nat)
    requires Forest(parents) && RowsInv(rows, |parents|) && b < |parents|
    requires TableRefines(rows, parents, t) && n <= |rows|
    ensures ScanRows(rows, b, LineageOf(parents, b), n) == Some(Listing(t.copies[b], n))
  {
    if n != 0 {
      ScanIsListing(rows, parents, b, t, n - 1);
      assert RowRefines(rows[n - 1], parents, n - 1, t.copies);
    }
  }

  /** A covered row is read through the filter as without it. */
  lemma CoveredRead(s: Store, m: Naive, t: string, b: nat, tid: nat)
    requires StoreInv(s) && Refines(s, m) && ScanWouldProduce(s, t, b, tid) && WritersCoverLog(s.tables[t][tid])
    ensures s.tables[t][tid].pos < |s.tables[t][tid].log|
    ensures t in m.tables && b < |m.tables[t].copies| && tid in m.tables[t].copies[b]
    ensures FilteredLatest(s.tables[t][tid], s.parents, b) == Some(m.tables[t].copies[b][tid])
  {
    hide FilterKeeps, WritersExact, WritersCoverLog;
    var row := s.tables[t][tid];
    SetBitResolves(s, m, t, b, tid);
    assert RowsInv(s.tables[t], |s.parents|) && RowInv(row, |s.parents|);
    assert TableRefines(s.tables[t], s.parents, m.tables[t]);
    assert RowRefines(row, s.parents, tid, m.tables[t].copies);
    if b != MASTER_BRANCH {
      FilterNeverDrops(row, s.parents, b);
      FilterMeaning(row, s.parents, b);
    }
  }

  /** A tuple just inserted in branch `b`: a native read finds it in `b` and in master, which reads the entry
      whoever wrote it; in any other branch that exists it finds nothing, and an update throws. */
  lemma InsertedIsPrivate(s: Store, t: string, b: nat, v: Tuple, c: nat)
    requires StoreInv(s) && Legal(s, Insert(t, b, v)) && c < |s.parents|
    ensures var after := Step(s, Insert(t, b, v));
            && RowExists(after, t, c, |s.tables[t]|)
            && var row := after.tables[t][|s.tables[t]|];
               && row.pos < |row.log|
               && FilteredLatest(row, after.parents, c) == (if c == b || c == MASTER_BRANCH then Some(v) else None)
               && (Throws(row, after.parents, c) <==> c != b && c != MASTER_BRANCH)
  {
    hide LineageOf, Resolve, FilterKeeps;
    InsertIsolation(s.parents, b, v, c);
    if c == b {
      OwnInsertIsKept(s.parents, b, v);
    }
  }

  lemma OwnInsertIsKept(parents: seq<nat>, b: nat, v: Tuple)
    requires Forest(parents) && b < |parents|
    ensures FilterKeeps(InsertRow(|parents|, b, v).log, parents, b)
  {
    assert Keeps(InsertRow(|parents|, b, v).log, 0, parents, b);
  }

  // ----- whole runs

  /** The run of `ops` on the shared store, or None as soon as an operation is not legal. */
  function Run(ops: seq<Op>): (r: Option<Store>)
    ensures r.Some? ==> StoreInv(r.value)
  {
    if ops == [] then Some(EMPTY_STORE) else
      var before := Run(ops[..|ops| - 1]);
      var op := ops[|ops| - 1];
      if before.None? || !Legal(before.value, op) then None
      else
        StepKeepsInv(before.value, op);
        Some(Step(before.value, op))
  }

  function NaiveRun(ops: seq<Op>): (r: Option<Naive>)
    ensures r.Some? ==> NaiveInv(r.value)
  {
    if ops == [] then Some(EMPTY_NAIVE) else
      var before := NaiveRun(ops[..|ops| - 1]);
      var op := ops[|ops| - 1];
      if before.None? || !NaiveLegal(before.value, op) then None else Some(NaiveStep(before.value, op))
  }

  /** The two stores accept the same runs and stay in step. */
  lemma {:induction false} RunRefines(ops: seq<Op>)
    ensures Run(ops).Some? <==> NaiveRun(ops).Some?
    ensures Run(ops).Some? ==> Refines(Run(ops).value, NaiveRun(ops).value)
  {
    if ops != [] {
      var front, op := ops[..|ops| - 1], ops[|ops| - 1];
      RunRefines(front);
      if Run(front).Some? {
        LegalAgrees(Run(front).value, NaiveRun(front).value, op);
        if Legal(Run(front).value, op) {
          StepRefines(Run(front).value, NaiveRun(front).value, op);
        }
      }
    }
  }

  /** Every prefix of an accepted run is accepted, and branches are never removed. */
  lemma {:induction false} PrefixIsAccepted(ops: seq<Op>, i: nat)
    requires i <= |ops| && NaiveRun(ops).Some?
    ensures NaiveRun(ops[..i]).Some? && NaiveRun(ops[..i]).value.branches <= NaiveRun(ops).value.branches
  {
    if i < |ops| {
      var front := ops[..|ops| - 1];
      PrefixIsAccepted(front, i);
      assert front[..i] == ops[..i];
    } else {
      assert ops[..i] == ops;
    }
  }

  lemma NextStepIsLegal(ops: seq<Op>, i: nat)
    requires i < |ops| && NaiveRun(ops).Some?
    ensures NaiveRun(ops[..i]).Some? && NaiveRun(ops[..i + 1]).Some?
    ensures Follows(NaiveRun(ops[..i]).value, ops[i], NaiveRun(ops[..i + 1]).value)
    ensures NaiveRun(ops[..i + 1]).value.branches <= NaiveRun(ops).value.branches
  {
    PrefixIsAccepted(ops, i + 1);
    assert ops[..i + 1][..i] == ops[..i];
  }

  lemma RunGoesOn(ops: seq<Op>, i: nat)
    requires i < |ops| && Run(ops[..i]).Some?
    ensures forall after | StoreFollows(Run(ops[..i]).value, ops[i], after) :: Run(ops[..i + 1]) == Some(after)
  {
    assert ops[..i + 1][..i] == ops[..i];
  }

  /** Whole-run refinement: after any legal run, scanning a table in a branch succeeds and yields
      exactly the private copy that the naive store keeps for that branch. */
  lemma ScanAfterRun(ops: seq<Op>, table: string, b: nat)
    requires Run(ops).Some?
    requires table in Run(ops).value.tables && b < |Run(ops).value.parents|
    ensures NaiveRun(ops).Some?
    ensures var t := NaiveRun(ops).value.tables;
            && table in t && b < |t[table].copies|
            && ScanTable(Run(ops).value.tables[table], Run(ops).value.parents, b)
               == Some(Listing(t[table].copies[b], t[table].count))
  {
    RunRefines(ops);
    var s, m := Run(ops).value, NaiveRun(ops).value;
    assert TableRefines(s.tables[table], s.parents, m.tables[table]);
    ScanIsListing(s.tables[table], s.parents, b, m.tables[table], |s.tables[table]|);
  }

  // ----- the lineage filter after a run

  /** Master only updates rows that a scan of master produced. */
  ghost predicate MasterUpdatesOffered(ops: seq<Op>)
  {
    ops == [] ||
    var front, op := ops[..|ops| - 1], ops[|ops| - 1];
    && MasterUpdatesOffered(front)
    && (Run(front).Some? && op.Update? && op.branch == MASTER_BRANCH ==>
          ScanWouldProduce(Run(front).value, op.table, MASTER_BRANCH, op.tid))
  }

  lemma {:induction false} RunCovered(ops: seq<Op>)
    requires Run(ops).Some? && MasterUpdatesOffered(ops)
    ensures StoreCovered(Run(ops).value)
  {
    if ops != [] {
      var front := ops[..|ops| - 1];
      RunCovered(front);
      StepKeepsWritersCovered(Run(front).value, ops[|ops| - 1]);
    }
  }

  /** What the filter lets through after any accepted run, and that it loses nothing while master only
      updates what it has. */
  lemma FilterAfterRun(ops: seq<Op>, t: string, tid: nat, b: nat)
    requires Run(ops).Some? && RowExists(Run(ops).value, t, b, tid)
    ensures var s := Run(ops).value;
            var row := s.tables[t][tid];
            && (Intersects(LineageBitset(s.parents, b), row.writers) <==> FilterKeeps(row.log, s.parents, b))
            && (MasterUpdatesOffered(ops) && Resolve(row.log, b, LineageOf(s.parents, b)).Some? ==>
                  FilterKeeps(row.log, s.parents, b))
  {
    hide Run, Intersects, FilterKeeps, WritersExact, WritersCoverLog, RowInv;
    var s := Run(ops).value;
    var row := s.tables[t][tid];
    assert RowsInv(s.tables[t], |s.parents|) && RowInv(row, |s.parents|);
    FilterMeaning(row, s.parents, b);
    if MasterUpdatesOffered(ops) && Resolve(row.log, b, LineageOf(s.parents, b)).Some? {
      RunCovered(ops);
      FilterNeverDrops(row, s.parents, b);
    }
  }

  /** What a private copy holds, a scan produces, and the filter knows its writers. */
  lemma CopiedIsScanned(ops: seq<Op>, t: string, b: nat, tid: nat)
    requires NaiveRun(ops).Some? && MasterUpdatesOffered(ops)
    requires var m := NaiveRun(ops).value;
             t in m.tables && b < |m.tables[t].copies| && tid in m.tables[t].copies[b]
    ensures Run(ops).Some? && ScanWouldProduce(Run(ops).value, t, b, tid)
    ensures RowExists(Run(ops).value, t, b, tid) && WritersCoverLog(Run(ops).value.tables[t][tid])
  {
    hide Run, NaiveRun, WritersCoverLog, WritersExact, RowInv;
    RunRefines(ops);
    RunCovered(ops);
    var s, m := Run(ops).value, NaiveRun(ops).value;
    assert RowsInv(s.tables[t], |s.parents|) && TableRefines(s.tables[t], s.parents, m.tables[t]);
    assert RowInv(s.tables[t][tid], |s.parents|);
    assert RowRefines(s.tables[t][tid], s.parents, tid, m.tables[t].copies);
    assert AllCovered(s.tables[t]);
  }

  // ----- what the naive store promises, copy by copy

  /** The value of a tuple in the private copy of a branch. */
  function ValueIn(m: Naive, t: string, b: nat, tid: nat): Option<Tuple>
  {
    if t in m.tables && b < |m.tables[t].copies| && tid in m.tables[t].copies[b]
    then Some(m.tables[t].copies[b][tid]) else None
  }

  /** An operation changes at most one value of one existing copy: an insert adds the next tuple, an update
      replaces the value of a tuple that is there, a delete removes it.  A new branch starts with what its
      parent has, or with nothing. */
  lemma NaiveStepMeaning(m: Naive, op: Op, t: string, b: nat, tid: nat)
    requires NaiveInv(m) && NaiveLegal(m, op)
    ensures var now, before := ValueIn(NaiveStep(m, op), t, b, tid), ValueIn(m, t, b, tid);
            match op
            case CreateTable(_) => now == before
            case CreateBranch(p) =>
              now == if b != m.branches then before else if p == INVALID_BRANCH then None else ValueIn(m, t, p, tid)
            case Insert(u, c, v) => now == if t == u && b == c && tid == m.tables[u].count then Some(v) else before
            case Update(u, c, id, v) => now == if t == u && b == c && tid == id && before.Some? then Some(v) else before
            case Delete(u, c, id) => now == if t == u && b == c && tid == id then None else before
  {
  }

  /** What may be done: whatever names tables, branches and tuple ids that exist. */
  lemma LegalMeaning(m: Naive, t: string, b: nat, tid: nat, v: Tuple)
    ensures NaiveLegal(m, CreateTable(t)) <==> t !in m.tables
    ensures NaiveLegal(m, CreateBranch(b)) <==> m.branches < 0xFFFF_FFFF && (b == 0xFFFF_FFFF || b < m.branches)
    ensures NaiveLegal(m, Insert(t, b, v)) <==> t in m.tables && b < m.branches
    ensures NaiveLegal(m, Update(t, b, tid, v)) <==> t in m.tables && b < m.branches && tid < m.tables[t].count
    ensures NaiveLegal(m, Delete(t, b, tid)) <==> t in m.tables && b < m.branches && tid < m.tables[t].count
  {
  }

  /** What exists after an operation. */
  lemma NaiveStepCreates(m: Naive, op: Op)
    requires NaiveInv(m) && NaiveLegal(m, op)
    ensures var after := NaiveStep(m, op);
            && after.branches == m.branches + (if op.CreateBranch? then 1 else 0)
            && after.tables.Keys == m.tables.Keys + (if op.CreateTable? then {op.table} else {})
            && (op.CreateTable? ==> after.tables[op.table].count == 0)
            && forall t | t in m.tables ::
                 after.tables[t].count == m.tables[t].count + if op.Insert? && op.table == t then 1 else 0
  {
  }

  lemma Extended(ops: seq<Op>, op: Op) returns (more: seq<Op>)
    requires NaiveRun(ops).Some? && NaiveLegal(NaiveRun(ops).value, op)
    ensures more == ops + [op] && NaiveRun(more) == Some(NaiveStep(NaiveRun(ops).value, op))
  {
    more := ops + [op];
    assert more[..|ops|] == ops;
  }

  lemma ForkedRun() returns (ops: seq<Op>)
    ensures NaiveRun(ops).Some?
    ensures var m := NaiveRun(ops).value;
            && m.branches == 2 && "t" in m.tables && m.tables["t"].count == 2
            && ValueIn(m, "t", 0, 0) == Some([1]) && ValueIn(m, "t", 0, 1) == Some([2])
            && ValueIn(m, "t", 1, 0) == Some([1]) && ValueIn(m, "t", 1, 1) == None
    ensures ops == [CreateTable("t"), Insert("t", 0, [1]), CreateBranch(0), Insert("t", 0, [2])]
  {
    hide NaiveRun;
    ops := NothingRun();
    ops := Extended(ops, CreateTable("t"));
    ops := Extended(ops, Insert("t", 0, [1]));
    ops := Extended(ops, CreateBranch(0));
    ops := Extended(ops, Insert("t", 0, [2]));
  }

  lemma NothingRun() returns (ops: seq<Op>)
    ensures ops == [] && NaiveRun(ops) == Some(EMPTY_NAIVE)
  {
    ops := [];
  }

  /** A run with every operation: branch 0 deletes its first tuple and keeps the second, which it inserted
      after branch 1 was created; branch 1 updates the tuple that it inherited and cannot update the other. */
  lemma ExampleRun() returns (ops: seq<Op>)
    ensures NaiveRun(ops).Some? && NaiveRun(ops).value.branches == 2
    ensures var m := NaiveRun(ops).value;
            && ValueIn(m, "t", 0, 0) == None && ValueIn(m, "t", 0, 1) == Some([2])
            && ValueIn(m, "t", 1, 0) == Some([3]) && ValueIn(m, "t", 1, 1) == None
    ensures ops == [CreateTable("t"), Insert("t", 0, [1]), CreateBranch(0), Insert("t", 0, [2]),
                    Update("t", 1, 0, [3]), Delete("t", 0, 0), Update("t", 1, 1, [4])]
  {
    hide NaiveRun;
    ops := ForkedRun();
    ops := Extended(ops, Update("t", 1, 0, [3]));
    ops := Extended(ops, Delete("t", 0, 0));
    ops := Extended(ops, Update("t", 1, 1, [4]));
  }
}
