/** A row of a versioned table, seen as the log of everything ever written to it.

    The oldest version comes first.  All branches share the log; which version a branch reads is
    decided by who wrote a version and how many branches existed at that time. */
module VersionLog {
  import opened Wrappers
  import opened Lineage

  /** The raw column values of one tuple. */
  type Tuple = seq<int>

  /** `ts` is the largest branch id at the time the version was written. */
  datatype Version = Version(branch: nat, ts: nat, value: Tuple)

  /** `pos` is the place of the current master version, `bits` the row of the branch bitmap and
      `writers` the set of branches that wrote the row, as the lineage filter sees it. */
  datatype VersionedRow = VersionedRow(log: seq<Version>, pos: nat, bits: seq<bool>, writers: seq<bool>)

  predicate Visible(v: Version, b: nat, lineage: map<nat, nat>)
  {
    v.branch == b || (v.branch in lineage && v.ts < lineage[v.branch])
  }

  /** The place of the newest version that `b` may read, or -1. */
  function NewestVisible(log: seq<Version>, b: nat, lineage: map<nat, nat>): (i: int)
    ensures -1 <= i < |log|
    ensures 0 <= i ==> Visible(log[i], b, lineage)
    ensures forall j | i < j < |log| :: !Visible(log[j], b, lineage)
  {
    if log == [] then -1
    else if Visible(log[|log| - 1], b, lineage) then |log| - 1
    else NewestVisible(log[..|log| - 1], b, lineage)
  }

  function Resolve(log: seq<Version>, b: nat, lineage: map<nat, nat>): Option<Tuple>
  {
    var i := NewestVisible(log, b, lineage);
    if 0 <= i then Some(log[i].value) else None
  }

  /** What a query on branch `b` reads; the master branch always reads the master version. */
  function Latest(row: VersionedRow, b: nat, lineage: map<nat, nat>): Option<Tuple>
    requires row.pos < |row.log|
  {
    if b == MASTER_BRANCH then Some(row.log[row.pos].value) else Resolve(row.log, b, lineage)
  }

  /** The first `n` rows as a scan of branch `b` produces them, in the order of the tuple ids.  None
      stands for the exception "no such tuple". */
  function ScanRows(rows: seq<VersionedRow>, b: nat, lineage: map<nat, nat>, n: nat): Option<seq<(nat, Tuple)>>
    requires n <= |rows|
    requires forall i | 0 <= i < |rows| :: rows[i].pos < |rows[i].log| && b < |rows[i].bits|
  {
    if n == 0 then Some([]) else
      var row, front := rows[n - 1], ScanRows(rows, b, lineage, n - 1);
      if front.None? || !row.bits[b] then front
      else
        var value := Latest(row, b, lineage);
        if value.None? then None else Some(front.value + [(n - 1, value.value)])
  }

  /** A scan that threw stays failed. */
  lemma {:induction false} ScanStaysFailed(rows: seq<VersionedRow>, b: nat, lineage: map<nat, nat>, m: nat, n: nat)
    requires m <= n <= |rows|
    requires forall i | 0 <= i < |rows| :: rows[i].pos < |rows[i].log| && b < |rows[i].bits|
    requires ScanRows(rows, b, lineage, m).None?
    ensures ScanRows(rows, b, lineage, n).None?
  {
    if m < n { ScanStaysFailed(rows, b, lineage, m, n - 1); }
  }

  // ----- writing a row while branches 0..n exist

  function Grown(bits: seq<bool>, n: nat): (r: seq<bool>)
    ensures |r| == if |bits| < n then n else |bits|
    ensures forall i | 0 <= i < |r| :: r[i] == (i < |bits| && bits[i])
  {
    if |bits| < n then bits + seq(n - |bits|, _ => false) else bits
  }

  function InsertRow(n: nat, b: nat, value: Tuple): VersionedRow
    requires b < n
  {
    var mine := seq(n, i => i == b);
    VersionedRow([Version(b, n - 1, value)], 0, mine, mine)
  }

  function UpdateRow(row: VersionedRow, n: nat, b: nat, value: Tuple): VersionedRow
    requires b < n
  {
    var log := row.log + [Version(b, n - 1, value)];
    if b == MASTER_BRANCH then row.(log := log, pos := |row.log|)
    else row.(log := log, writers := Grown(row.writers, n)[b := true])
  }

  function DeleteRow(row: VersionedRow, b: nat): VersionedRow
    requires b < |row.bits|
  {
    row.(bits := row.bits[b := false])
  }

  /** The row after a branch was created from `parent`. */
  function BranchRow(row: VersionedRow, parent: nat): VersionedRow
    requires parent == INVALID_BRANCH || parent < |row.bits|
  {
    row.(bits := row.bits + [parent != INVALID_BRANCH && row.bits[parent]])
  }

  function BranchRows(rows: seq<VersionedRow>, n: nat, parent: nat): seq<VersionedRow>
    requires forall i | 0 <= i < |rows| :: |rows[i].bits| == n
    requires parent == INVALID_BRANCH || parent < n
  {
    seq(|rows|, i requires 0 <= i < |rows| && |rows[i].bits| == n => BranchRow(rows[i], parent))
  }

  // ----- what every operation keeps

  predicate RowInv(row: VersionedRow, n: nat)
  {
    && row.pos < |row.log|
    && |row.bits| == n
    && |row.writers| <= n
    && (forall i | 0 <= i < |row.log| :: row.log[i].branch < n && row.log[i].ts < n)
    && (forall i | row.pos < i < |row.log| :: row.log[i].branch != MASTER_BRANCH)
    && (row.log[row.pos].branch != MASTER_BRANCH ==> NoneByMaster(row.log))
    && (n > 0 && row.bits[MASTER_BRANCH] ==> row.log[row.pos].branch == MASTER_BRANCH)
  }

  predicate NoneByMaster(log: seq<Version>)
  {
    forall i | 0 <= i < |log| :: log[i].branch != MASTER_BRANCH
  }

  predicate Marks(writers: seq<bool>, a: nat)
  {
    a < |writers| && writers[a]
  }

  /** Writing version `i` marked its writer: updates by master do not. */
  predicate Marking(log: seq<Version>, i: nat)
    requires i < |log|
  {
    i == 0 || log[i].branch != MASTER_BRANCH
  }

  /** Exactly the writers of such versions are marked. */
  ghost predicate WritersExact(log: seq<Version>, writers: seq<bool>)
  {
    forall a: nat :: Marks(writers, a) <==> exists i :: 0 <= i < |log| && log[i].branch == a && Marking(log, i)
  }

  /** Every version of the row was written by a branch that `writers` marks. */
  predicate WritersCoverLog(row: VersionedRow)
  {
    forall i | 0 <= i < |row.log| :: Marks(row.writers, row.log[i].branch)
  }

  lemma InsertKeepsInv(n: nat, b: nat, value: Tuple)
    requires b < n
    ensures RowInv(InsertRow(n, b, value), n) && WritersCoverLog(InsertRow(n, b, value))
    ensures WritersExact(InsertRow(n, b, value).log, InsertRow(n, b, value).writers)
  {
    var row := InsertRow(n, b, value);
    assert row.log[0].branch == b && Marking(row.log, 0);
  }

  lemma UpdateKeepsInv(row: VersionedRow, n: nat, b: nat, value: Tuple)
    requires RowInv(row, n) && b < n
    ensures RowInv(UpdateRow(row, n, b, value), n)
    ensures WritersCoverLog(row) && (b == MASTER_BRANCH ==> row.bits[b]) ==>
              WritersCoverLog(UpdateRow(row, n, b, value))
  {
    var r := UpdateRow(row, n, b, value);
    assert forall i | 0 <= i < |row.log| :: r.log[i] == row.log[i];
    if WritersCoverLog(row) && (b == MASTER_BRANCH ==> row.bits[b]) {
      assert Marks(row.writers, row.log[row.pos].branch);
    }
  }

  /** An update of any row by any branch keeps the marks exact. */
  lemma UpdateKeepsWritersExact(row: VersionedRow, n: nat, b: nat, value: Tuple)
    requires RowInv(row, n) && b < n && WritersExact(row.log, row.writers)
    ensures WritersExact(UpdateRow(row, n, b, value).log, UpdateRow(row, n, b, value).writers)
  {
    var r := UpdateRow(row, n, b, value);
    var last := |row.log|;
    assert forall i | 0 <= i < last :: r.log[i] == row.log[i] && Marking(r.log, i) == Marking(row.log, i);
    forall a: nat
      ensures Marks(r.writers, a) <==> exists i :: 0 <= i < |r.log| && r.log[i].branch == a && Marking(r.log, i)
    {
      if Marks(row.writers, a) {
        var i :| 0 <= i < last && row.log[i].branch == a && Marking(row.log, i);
        assert r.log[i].branch == a && Marking(r.log, i);
      }
      if a == b != MASTER_BRANCH {
        assert r.log[last].branch == a && Marking(r.log, last);
      }
    }
  }

  ghost predicate RowsInv(rows: seq<VersionedRow>, n: nat)
  {
    && (forall i | 0 <= i < |rows| :: rows[i].pos < |rows[i].log| && |rows[i].bits| == n)
    && (forall i {:trigger RowInv(rows[i], n)} | 0 <= i < |rows| ::
          RowInv(rows[i], n) && WritersExact(rows[i].log, rows[i].writers))
  }

  predicate AllCovered(rows: seq<VersionedRow>)
  {
    forall i | 0 <= i < |rows| :: WritersCoverLog(rows[i])
  }

  lemma InsertKeepsRowsInv(rows: seq<VersionedRow>, n: nat, b: nat, v: Tuple)
    requires RowsInv(rows, n) && b < n
    ensures RowsInv(rows + [InsertRow(n, b, v)], n)
  {
    hide WritersExact;
    InsertKeepsInv(n, b, v);
    var after := rows + [InsertRow(n, b, v)];
    forall i | 0 <= i < |after| ensures RowInv(after[i], n) && WritersExact(after[i].log, after[i].writers) {
      assert i < |rows| ==> RowInv(rows[i], n);
    }
  }

  lemma DeleteKeepsRowsInv(rows: seq<VersionedRow>, n: nat, tid: nat, b: nat)
    requires RowsInv(rows, n) && tid < |rows| && b < n
    ensures RowsInv(rows[tid := DeleteRow(rows[tid], b)], n)
  {
    hide WritersExact;
    var after := rows[tid := DeleteRow(rows[tid], b)];
    forall i | 0 <= i < |rows| ensures RowInv(after[i], n) && WritersExact(after[i].log, after[i].writers) {
      assert RowInv(rows[i], n);
    }
  }

  lemma UpdateKeepsRowsInv(rows: seq<VersionedRow>, n: nat, tid: nat, b: nat, v: Tuple)
    requires RowsInv(rows, n) && tid < |rows| && b < n
    ensures RowsInv(rows[tid := UpdateRow(rows[tid], n, b, v)], n)
  {
    assert RowInv(rows[tid], n);
    hide WritersExact, RowInv;
    UpdateKeepsInv(rows[tid], n, b, v);
    UpdateKeepsWritersExact(rows[tid], n, b, v);
    var after := rows[tid := UpdateRow(rows[tid], n, b, v)];
    forall i | 0 <= i < |rows| ensures RowInv(after[i], n) && WritersExact(after[i].log, after[i].writers) {
      assert RowInv(rows[i], n);
    }
  }

  lemma BranchKeepsInv(rows: seq<VersionedRow>, n: nat, parent: nat)
    requires RowsInv(rows, n) && (parent == INVALID_BRANCH || parent < n)
    ensures RowsInv(BranchRows(rows, n, parent), n + 1)
  {
    hide WritersExact;
    var after := BranchRows(rows, n, parent);
    forall i | 0 <= i < |rows| ensures RowInv(after[i], n + 1) && WritersExact(after[i].log, after[i].writers) {
      assert RowInv(rows[i], n);
    }
  }

  /** Master's shortcut "read the entry" agrees with the rule "read the newest visible version" exactly
      when the entry holds a version of master, as it does where the bit of master is set. */
  lemma MasterShortcutIsNewestVisible(row: VersionedRow, n: nat)
    requires RowInv(row, n) && n > 0
    ensures Latest(row, MASTER_BRANCH, map[]) == Resolve(row.log, MASTER_BRANCH, map[])
       <==> row.log[row.pos].branch == MASTER_BRANCH
    ensures row.bits[MASTER_BRANCH] ==> row.log[row.pos].branch == MASTER_BRANCH
  {
    var i := NewestVisible(row.log, MASTER_BRANCH, map[]);
    if row.log[row.pos].branch == MASTER_BRANCH {
      assert Visible(row.log[row.pos], MASTER_BRANCH, map[]);
      assert row.pos <= i;
    }
  }

  // ----- isolation

  /** Two readers that may see the same versions of a log read the same one. */
  lemma {:induction false} NewestVisibleDependsOnVisibility(
    log: seq<Version>, b: nat, lb: map<nat, nat>, c: nat, lc: map<nat, nat>)
    requires forall i | 0 <= i < |log| :: Visible(log[i], b, lb) <==> Visible(log[i], c, lc)
    ensures NewestVisible(log, b, lb) == NewestVisible(log, c, lc)
  {
    if log != [] {
      assert Visible(log[|log| - 1], b, lb) <==> Visible(log[|log| - 1], c, lc);
      NewestVisibleDependsOnVisibility(log[..|log| - 1], b, lb, c, lc);
    }
  }

  /** Insert isolation: the inserting branch resolves the tuple, and no other existing branch does, not
      even a branch that was created from the inserting one before. */
  lemma InsertIsolation(parents: seq<nat>, b: nat, value: Tuple, c: nat)
    requires Forest(parents) && b < |parents| && c < |parents|
    ensures Resolve(InsertRow(|parents|, b, value).log, c, LineageOf(parents, c))
         == if b == c then Some(value) else None
  {
    var lc, v := LineageOf(parents, c), Version(b, |parents| - 1, value);
    assert InsertRow(|parents|, b, value).log == [v] && [v][..0] == [];
    LineageMeaning(parents, c);
    assert Visible(v, c, lc) <==> b == c;
  }

  /** Update isolation: the writing branch reads the new value, every other branch reads what it
      read before. */
  lemma UpdateIsolation(row: VersionedRow, parents: seq<nat>, b: nat, value: Tuple, c: nat)
    requires Forest(parents) && RowInv(row, |parents|) && b < |parents| && c < |parents|
    ensures Latest(UpdateRow(row, |parents|, b, value), c, LineageOf(parents, c))
         == if b == c then Some(value) else Latest(row, c, LineageOf(parents, c))
  {
    var lc := LineageOf(parents, c);
    var v := Version(b, |parents| - 1, value);
    assert (row.log + [v])[..|row.log|] == row.log;
    if b != c {
      LineageMeaning(parents, c);
      assert !Visible(v, c, lc);
    } else {
      assert Visible(v, c, lc);
    }
  }

  /** A version written before a branch was created is visible in the branch exactly when it was
      visible in the branch's parent. */
  lemma NewBranchSeesItsParent(v: Version, parents: seq<nat>, p: nat)
    requires Forest(parents) && p < |parents| && Forest(parents + [p])
    requires v.branch < |parents| && v.ts < |parents|
    ensures Visible(v, |parents|, LineageOf(parents + [p], |parents|))
       <==> Visible(v, p, LineageOf(parents, p))
  {
    LineageIsStable(parents, p, p);
    LineageMeaning(parents, p);
  }

  /** A branch just created from a parent resolves a row as the parent does: from master, exactly when
      the entry holds a version of master; from any other parent, always. */
  lemma BranchResolvesAsParent(row: VersionedRow, parents: seq<nat>, p: nat)
    requires Forest(parents) && RowInv(row, |parents|) && p < |parents| && Forest(parents + [p])
    ensures Latest(BranchRow(row, p), |parents|, LineageOf(parents + [p], |parents|))
            == Latest(row, p, LineageOf(parents, p))
       <==> (p == MASTER_BRANCH ==> row.log[row.pos].branch == MASTER_BRANCH)
  {
    var n := |parents|;
    var ln := LineageOf(parents + [p], n);
    forall i | 0 <= i < |row.log|
      ensures Visible(row.log[i], n, ln) <==> Visible(row.log[i], p, LineageOf(parents, p))
    {
      NewBranchSeesItsParent(row.log[i], parents, p);
    }
    NewestVisibleDependsOnVisibility(row.log, n, ln, p, LineageOf(parents, p));
    if p == MASTER_BRANCH {
      MasterShortcutIsNewestVisible(row, n);
    }
  }

  /** Visibility in terms of the forest alone: the writer is the reader, or an ancestor that wrote
      before the path to the reader forked off. */
  lemma VisibleMeansWrittenBeforeFork(v: Version, parents: seq<nat>, b: nat)
    requires Forest(parents) && b < |parents|
    ensures Visible(v, b, LineageOf(parents, b))
       <==> v.branch == b
            || exists c: nat | v.ts < c < |parents| ::
                 parents[c] == v.branch && v.branch != INVALID_BRANCH && AncestorOrSelf(parents, c, b)
  {
    var l := LineageOf(parents, b);
    LineageMeaning(parents, b);
    if c: nat :| v.ts < c < |parents| && parents[c] == v.branch && v.branch != INVALID_BRANCH
                 && AncestorOrSelf(parents, c, b)
    {
      AncestorThroughChild(parents, c, b);
      ChildOnPathIsUnique(parents, c, l[v.branch], b);
    }
  }

  lemma {:induction false} AncestorThroughChild(parents: seq<nat>, c: nat, b: nat)
    requires Forest(parents) && b < |parents| && c < |parents| && !IsRoot(parents, c)
    requires AncestorOrSelf(parents, c, b)
    ensures ProperAncestor(parents, parents[c], b)
  {
    if c != b {
      AncestorThroughChild(parents, c, parents[b]);
      AncestorIsOlder(parents, parents[c], parents[b]);
    }
  }

  // ----- the lineage filter

  predicate Intersects(x: seq<bool>, y: seq<bool>)
  {
    exists i :: 0 <= i < |x| && i < |y| && x[i] && y[i]
  }

  /** Version `i` keeps the row for branch `b`: an insert, or an update by another branch than master,
      of `b` or of an ancestor.  Whether `b` can see the version does not matter. */
  predicate Keeps(log: seq<Version>, i: nat, parents: seq<nat>, b: nat)
    requires i < |log| && Forest(parents) && b < |parents|
  {
    Marking(log, i) && AncestorOrSelf(parents, log[i].branch, b)
  }

  predicate FilterKeeps(log: seq<Version>, parents: seq<nat>, b: nat)
    requires Forest(parents) && b < |parents|
  {
    exists i :: 0 <= i < |log| && Keeps(log, i, parents, b)
  }

  /** What a read with the filter in front produces; master is not filtered. */
  function FilteredLatest(row: VersionedRow, parents: seq<nat>, b: nat): Option<Tuple>
    requires row.pos < |row.log| && Forest(parents) && b < |parents|
  {
    if b == MASTER_BRANCH then Some(row.log[row.pos].value)
    else if FilterKeeps(row.log, parents, b) then Resolve(row.log, b, LineageOf(parents, b))
    else None
  }

  lemma BitsetIsAncestry(parents: seq<nat>, b: nat, a: nat)
    requires Forest(parents) && b < |parents| && a < |parents|
    ensures LineageBitset(parents, b)[a] <==> AncestorOrSelf(parents, a, b)
  {
    LineageMeaning(parents, b);
  }

  /** What the filter lets through, from the log and the branch forest alone. */
  lemma FilterMeaning(row: VersionedRow, parents: seq<nat>, b: nat)
    requires Forest(parents) && b < |parents| && RowInv(row, |parents|) && WritersExact(row.log, row.writers)
    ensures Intersects(LineageBitset(parents, b), row.writers) <==> FilterKeeps(row.log, parents, b)
  {
    hide AncestorOrSelf, WritersExact, LineageBitset;
    var bits := LineageBitset(parents, b);
    if Intersects(bits, row.writers) {
      var a :| 0 <= a < |bits| && a < |row.writers| && bits[a] && row.writers[a];
      var i := MarkedVersion(row, a);
      BitsetIsAncestry(parents, b, a);
      assert Keeps(row.log, i, parents, b);
    }
    if i :| 0 <= i < |row.log| && Keeps(row.log, i, parents, b) {
      MarkOfVersion(row, i);
      BitsetIsAncestry(parents, b, row.log[i].branch);
    }
  }

  lemma MarkedVersion(row: VersionedRow, a: nat) returns (i: nat)
    requires WritersExact(row.log, row.writers) && Marks(row.writers, a)
    ensures i < |row.log| && row.log[i].branch == a && Marking(row.log, i)
  {
    i :| 0 <= i < |row.log| && row.log[i].branch == a && Marking(row.log, i);
  }

  lemma MarkOfVersion(row: VersionedRow, i: nat)
    requires WritersExact(row.log, row.writers) && i < |row.log| && Marking(row.log, i)
    ensures Marks(row.writers, row.log[i].branch)
  {
  }

  lemma VisibleIsByAncestor(v: Version, parents: seq<nat>, b: nat)
    requires Forest(parents) && b < |parents| && Visible(v, b, LineageOf(parents, b))
    ensures AncestorOrSelf(parents, v.branch, b)
  {
    LineageMeaning(parents, b);
  }

  /** While every writer is marked, the filter never drops a row in which the branch resolves a version. */
  lemma FilterNeverDrops(row: VersionedRow, parents: seq<nat>, b: nat)
    requires Forest(parents) && RowInv(row, |parents|) && WritersCoverLog(row) && b < |parents|
    requires Resolve(row.log, b, LineageOf(parents, b)).Some?
    ensures Intersects(LineageBitset(parents, b), row.writers)
  {
    var i := NewestVisible(row.log, b, LineageOf(parents, b));
    assert Marks(row.writers, row.log[i].branch) && LineageBitset(parents, b)[row.log[i].branch];
  }

  /** Every writer is marked if and only if master inserted the row or never updated it. */
  lemma CoveredIff(row: VersionedRow)
    requires WritersExact(row.log, row.writers) && row.log != []
    ensures WritersCoverLog(row) <==> row.log[0].branch == MASTER_BRANCH || NoneByMaster(row.log)
  {
    if row.log[0].branch == MASTER_BRANCH || NoneByMaster(row.log) {
      MarkOfVersion(row, 0);
      forall i | 0 <= i < |row.log| ensures Marks(row.writers, row.log[i].branch) {
        if row.log[i].branch != MASTER_BRANCH {
          MarkOfVersion(row, i);
        }
      }
    } else if Marks(row.writers, MASTER_BRANCH) {
      var _ := MarkedVersion(row, MASTER_BRANCH);
    }
  }

  /** When the filter loses a row that the branch resolves: exactly when all that the branch and its
      ancestors wrote to the row are updates by master. */
  lemma FilterDropsIff(row: VersionedRow, parents: seq<nat>, b: nat)
    requires Forest(parents) && b < |parents| && RowInv(row, |parents|) && WritersExact(row.log, row.writers)
    requires Resolve(row.log, b, LineageOf(parents, b)).Some?
    ensures !Intersects(LineageBitset(parents, b), row.writers)
       <==> forall i | 0 <= i < |row.log| && AncestorOrSelf(parents, row.log[i].branch, b) ::
              i > 0 && row.log[i].branch == MASTER_BRANCH
  {
    hide WritersExact, LineageBitset;
    FilterMeaning(row, parents, b);
    var k := NewestVisible(row.log, b, LineageOf(parents, b));
    VisibleIsByAncestor(row.log[k], parents, b);
    if FilterKeeps(row.log, parents, b) {
      var i :| 0 <= i < |row.log| && Keeps(row.log, i, parents, b);
    } else {
      forall i | 0 <= i < |row.log| && AncestorOrSelf(parents, row.log[i].branch, b)
        ensures i > 0 && row.log[i].branch == MASTER_BRANCH
      {
        assert !Keeps(row.log, i, parents, b);
      }
    }
  }

  /** Such rows exist: branch 1 inserts, master updates what it does not have, branch 2 is created from
      master and branch 3 from branch 2.  Both resolve the new value and lose the row. */
  lemma FilterDropsRowOfOtherBranch(value: Tuple, other: Tuple, b: nat)
    requires b == 2 || b == 3
    ensures
      var parents := [INVALID_BRANCH, MASTER_BRANCH, MASTER_BRANCH, 2];
      var row := UpdateRow(InsertRow(2, 1, value), 2, MASTER_BRANCH, other);
      && Resolve(row.log, b, LineageOf(parents, b)) == Some(other)
      && !Intersects(LineageBitset(parents, b), row.writers)
  {
    var parents := [INVALID_BRANCH, MASTER_BRANCH, MASTER_BRANCH, 2];
    var row := UpdateRow(InsertRow(2, 1, value), 2, MASTER_BRANCH, other);
    assert LineageOf(parents, MASTER_BRANCH) == map[];
    assert LineageOf(parents, 2) == map[MASTER_BRANCH := 2];
    assert LineageOf(parents, b)[MASTER_BRANCH] == 2 && b != 1;
    assert Visible(row.log[1], b, LineageOf(parents, b));
    assert !LineageBitset(parents, b)[1];
  }
}
