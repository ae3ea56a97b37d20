/** A versioned table: the columns with the current master values, the branch bitmap and one version
    chain per tuple. */
module VersionedTable {
  import opened Wrappers
  import opened Lineage
  import opened VersionLog
  import opened VersionChain
  import opened BitmapTable

  const BITMAP_FULL: string := "BitmapTable::resize()"
  const NO_SUCH_TUPLE: string := "no such tuple in the given branch"
  const BITMAP_COLUMNS: nat := 8

  class Table {
    /** All columns together: the current master value of every tuple. */
    var columns: seq<Tuple>
    const branchBitmap: BitmapTable
    var versionMgmtColumn: seq<VersionEntry>
    /** The abstract value of the table. */
    ghost var rows: seq<VersionedRow>
    ghost var repr: set<object>

    ghost predicate Valid()
      reads this, repr
      ensures Valid() ==> this in repr && branchBitmap in repr && branchBitmap.Valid()
    {
      && this in repr && branchBitmap in repr && branchBitmap.Valid()
      && branchBitmap.availableCount == BITMAP_COLUMNS
      && |columns| == |versionMgmtColumn| == |branchBitmap.data| == |rows|
      && RowsInv(rows, branchBitmap.columnCount)
      && (forall i | 0 <= i < |rows| :: rows[i].bits == branchBitmap.Matrix()[i])
      && (forall i | 0 <= i < |rows| :: versionMgmtColumn[i] in repr && versionMgmtColumn[i].storages <= repr)
      && (forall i {:trigger ValidEntry(i)} | 0 <= i < |rows| :: ValidEntry(i))
      && (forall i, j | 0 <= i < j < |rows| ::
            versionMgmtColumn[i] != versionMgmtColumn[j]
            && versionMgmtColumn[i].storages !! versionMgmtColumn[j].storages)
    }

    ghost predicate ValidEntry(i: nat)
      reads this, repr
      requires i < |columns| == |versionMgmtColumn| == |rows|
    {
      var e, row := versionMgmtColumn[i], rows[i];
      && e in repr && e.storages <= repr && e.Valid()
      && columns[i] == e.log[e.pos].value
      && row.log == e.log && row.pos == e.pos && row.writers == e.branchVisibility
    }

    constructor ()
      ensures Valid() && fresh(repr) && rows == [] && branchBitmap.columnCount == 1
    {
      columns := [];
      versionMgmtColumn := [];
      branchBitmap := new BitmapTable(BITMAP_COLUMNS);
      rows := [];
      new;
      repr := {this, branchBitmap};
      var _ := CreateBranch(INVALID_BRANCH);
    }

    /** `parent` may be INVALID_BRANCH; then the new branch starts empty.  Throws when the bitmap is
        full, and has incremented its column counter by then. */
    method CreateBranch(parent: nat) returns (r: Result<()>)
      requires Valid() && (parent == INVALID_BRANCH || parent < branchBitmap.columnCount)
      modifies this`rows, branchBitmap
      ensures branchBitmap.columnCount == old(branchBitmap.columnCount) + 1
      ensures r == if old(branchBitmap.columnCount) < BITMAP_COLUMNS then Success(()) else Failure(BITMAP_FULL)
      ensures r.Success? ==> Valid() && rows == BranchRows(old(rows), old(branchBitmap.columnCount), parent)
      ensures r.Failure? ==> rows == old(rows) && branchBitmap.data == old(branchBitmap.data)
    {
      hide BranchRows, RowsInv, BitmapTable.Matrix, WithColumn, ColumnOf;
      var column;
      if parent == INVALID_BRANCH {
        column := branchBitmap.AddColumn();
      } else {
        column := branchBitmap.CloneColumn(parent);
      }
      if column.None? { return Failure(BITMAP_FULL); }
      RowsHaveWidth(rows, old(branchBitmap.columnCount));
      rows := BranchRows(rows, old(branchBitmap.columnCount), parent);
      BranchKeepsInv(old(rows), old(branchBitmap.columnCount), parent);
      BranchedBits(old(rows), old(branchBitmap.columnCount), parent, old(branchBitmap.Matrix()));
      EntriesStayValid();
      return Success(());
    }

    /** The bitmap and the rows got a column; the chains are untouched. */
    twostate lemma EntriesStayValid()
      requires old(Valid()) && unchanged(`columns, `versionMgmtColumn, `repr)
      requires unchanged(old(repr) - {this, branchBitmap}) && |rows| == |old(rows)|
      requires forall i | 0 <= i < |rows| :: rows[i].(bits := old(rows)[i].bits) == old(rows)[i]
      ensures forall i | 0 <= i < |rows| :: ValidEntry(i)
    {
      hide RowsInv, BitmapTable.Matrix, BitmapTable.Valid;
      forall i | 0 <= i < |rows| ensures ValidEntry(i) {
        assert old(ValidEntry(i));
      }
    }

    /** insert_tuple; returns the id of the new tuple. */
    method InsertTuple(tuple: Tuple, ctx: ExecutionContext, largestBranchId: nat) returns (tid: nat)
      requires Valid() && branchBitmap.columnCount == 1 + largestBranchId && ctx.branchId <= largestBranchId
      modifies this, branchBitmap
      ensures Valid() && old(repr) <= repr && fresh(repr - old(repr))
      ensures branchBitmap.columnCount == old(branchBitmap.columnCount)
      ensures tid == |old(rows)|
      ensures rows == old(rows) + [InsertRow(1 + largestBranchId, ctx.branchId, tuple)]
    {
      tid := |versionMgmtColumn|;
      var versionEntry := new VersionEntry(ctx.branchId, largestBranchId, tuple);
      versionMgmtColumn := versionMgmtColumn + [versionEntry];
      repr := repr + {versionEntry};
      AddRow(ctx.branchId, tuple);
      rows := rows + [InsertRow(1 + largestBranchId, ctx.branchId, tuple)];
      InsertKeepsRowsInv(old(rows), 1 + largestBranchId, ctx.branchId, tuple);
      RowAppended(versionEntry);
    }

    twostate lemma RowAppended(new e: VersionEntry)
      requires old(Valid()) && branchBitmap.Valid() && RowsInv(rows, branchBitmap.columnCount)
      requires branchBitmap.availableCount == BITMAP_COLUMNS
      requires fresh(e) && e.Valid() && e.storages == {}
      requires |columns| == |versionMgmtColumn| == |branchBitmap.data| == |rows| == |old(rows)| + 1
      requires versionMgmtColumn == old(versionMgmtColumn) + [e] && repr == old(repr) + {e}
      requires forall i | 0 <= i < |old(rows)| :: columns[i] == old(columns)[i] && rows[i] == old(rows)[i]
      requires forall i | 0 <= i < |old(rows)| :: branchBitmap.Matrix()[i] == old(branchBitmap.Matrix()[i])
      requires unchanged(old(repr) - {this, branchBitmap})
      requires var last, row := |old(rows)|, rows[|old(rows)|];
               && columns[last] == e.log[e.pos].value && row.bits == branchBitmap.Matrix()[last]
               && row.log == e.log && row.pos == e.pos && row.writers == e.branchVisibility
      ensures Valid()
    {
      hide RowsInv, BitmapTable.Matrix, VersionEntry.Valid;
      forall i | 0 <= i < |rows| ensures ValidEntry(i) && rows[i].bits == branchBitmap.Matrix()[i] {
        if i < |old(rows)| { assert old(ValidEntry(i)); }
      }
      forall i, j | 0 <= i < j < |rows|
        ensures versionMgmtColumn[i] != versionMgmtColumn[j]
        ensures versionMgmtColumn[i].storages !! versionMgmtColumn[j].storages
      {
        assert old(ValidEntry(i));
        if j < |old(rows)| { assert old(ValidEntry(j)); }
      }
    }

    /** addRow followed by the stores into the columns. */
    method AddRow(branch: nat, tuple: Tuple)
      requires branchBitmap.Valid() && branch < branchBitmap.columnCount
      requires |columns| == |branchBitmap.data|
      modifies this`columns, branchBitmap`data
      ensures branchBitmap.Valid() && columns == old(columns) + [tuple]
      ensures branchBitmap.Matrix() == old(branchBitmap.Matrix()) + [seq(branchBitmap.columnCount, i => i == branch)]
    {
      columns := columns + [[]];
      branchBitmap.AddRow();
      branchBitmap.Set(|columns| - 1, branch, true);
      columns := columns[|columns| - 1 := tuple];
      assert branchBitmap.Matrix()[|columns| - 1] == seq(branchBitmap.columnCount, i => i == branch);
    }

    /** delete_tuple: only the branch's bit is cleared. */
    method DeleteTuple(tid: nat, ctx: ExecutionContext)
      requires Valid() && tid < |rows| && ctx.branchId < branchBitmap.columnCount
      modifies this`rows, branchBitmap`data
      ensures Valid() && branchBitmap.columnCount == old(branchBitmap.columnCount)
      ensures rows == old(rows)[tid := DeleteRow(old(rows)[tid], ctx.branchId)]
    {
      branchBitmap.Set(tid, ctx.branchId, false);
      rows := rows[tid := DeleteRow(rows[tid], ctx.branchId)];
      DeleteKeepsRowsInv(old(rows), branchBitmap.columnCount, tid, ctx.branchId);
      forall i | 0 <= i < |rows| ensures ValidEntry(i) {
        assert old(ValidEntry(i));
      }
    }

    /** update_tuple.  Fails, and changes nothing, when the branch resolves no version; whether the row
        is marked for the branch does not matter. */
    method UpdateTuple(tid: nat, tuple: Tuple, ctx: ExecutionContext, largestBranchId: nat) returns (r: Result<()>)
      requires Valid() && ctx !in repr && tid < |rows| && branchBitmap.columnCount == 1 + largestBranchId
      requires ctx.branchId <= largestBranchId
      modifies repr
      ensures Valid() && old(repr) <= repr && fresh(repr - old(repr))
      ensures branchBitmap.columnCount == old(branchBitmap.columnCount)
      ensures r == if ctx.branchId != MASTER_BRANCH
                      && Resolve(old(rows)[tid].log, ctx.branchId, ctx.branchLineage).None?
                   then Failure(NO_SUCH_TUPLE) else Success(())
      ensures rows == if r.Failure? then old(rows)
                      else old(rows)[tid := UpdateRow(old(rows)[tid], 1 + largestBranchId, ctx.branchId, tuple)]
    {
      var versionEntry := versionMgmtColumn[tid];
      assert ValidEntry(tid);
      if ctx.branchId == MASTER_BRANCH {
        UpdateMaster(tid, tuple, largestBranchId);
      } else {
        var predecessor, age := versionEntry.GetLatestChainElement(ctx);
        if predecessor == null { return Failure(NO_SUCH_TUPLE); }
        UpdateBranch(tid, tuple, ctx.branchId, largestBranchId, predecessor, age);
      }
      return Success(());
    }

    method UpdateMaster(tid: nat, tuple: Tuple, largestBranchId: nat)
      requires Valid() && tid < |rows| && branchBitmap.columnCount == 1 + largestBranchId
      modifies this, versionMgmtColumn[tid], versionMgmtColumn[tid].storages
      ensures Valid() && old(repr) <= repr && fresh(repr - old(repr))
      ensures rows == old(rows)[tid := UpdateRow(old(rows)[tid], 1 + largestBranchId, MASTER_BRANCH, tuple)]
    {
      hide RowsInv, BitmapTable.Matrix, BitmapTable.Valid, VersionEntry.Valid;
      assert ValidEntry(tid);
      versionMgmtColumn[tid].PushMaster(columns[tid], largestBranchId, tuple);
      columns := columns[tid := tuple];
      RecordUpdate(tid, 1 + largestBranchId, MASTER_BRANCH, tuple);
      EntryReplaced(tid);
    }

    method UpdateBranch(tid: nat, tuple: Tuple, branch: nat, largestBranchId: nat, predecessor: object, ghost age: nat)
      requires Valid() && tid < |rows| && branchBitmap.columnCount == 1 + largestBranchId
      requires MASTER_BRANCH != branch <= largestBranchId
      requires age < |versionMgmtColumn[tid].nodes| && predecessor == versionMgmtColumn[tid].Below(age + 1)
      modifies this, versionMgmtColumn[tid]
      ensures Valid() && old(repr) <= repr && fresh(repr - old(repr))
      ensures rows == old(rows)[tid := UpdateRow(old(rows)[tid], 1 + largestBranchId, branch, tuple)]
    {
      hide RowsInv, BitmapTable.Matrix, BitmapTable.Valid, VersionEntry.Valid;
      assert ValidEntry(tid);
      versionMgmtColumn[tid].PushBranch(tuple, branch, largestBranchId, predecessor, age);
      RecordUpdate(tid, 1 + largestBranchId, branch, tuple);
      EntryReplaced(tid);
    }

    ghost method RecordUpdate(tid: nat, n: nat, branch: nat, tuple: Tuple)
      requires tid < |columns| == |versionMgmtColumn| == |rows| && branch < n
      requires RowsInv(rows, n)
      requires this in repr && versionMgmtColumn[tid] in repr && versionMgmtColumn[tid].Valid()
      requires var e, row := versionMgmtColumn[tid], UpdateRow(rows[tid], n, branch, tuple);
               row.log == e.log && row.pos == e.pos && row.writers == e.branchVisibility
               && columns[tid] == e.log[e.pos].value
      modifies this`repr, this`rows
      ensures repr == old(repr) + versionMgmtColumn[tid].storages
      ensures rows == old(rows)[tid := UpdateRow(old(rows)[tid], n, branch, tuple)]
      ensures RowsInv(rows, n) && ValidEntry(tid)
    {
      UpdateKeepsRowsInv(rows, n, tid, branch, tuple);
      repr := repr + versionMgmtColumn[tid].storages;
      rows := rows[tid := UpdateRow(rows[tid], n, branch, tuple)];
    }

    /** Writing to one tuple's chain, the columns and the rows leaves the other tuples alone. */
    twostate lemma EntryReplaced(tid: nat)
      requires old(Valid()) && tid < |old(rows)|
      requires versionMgmtColumn == old(versionMgmtColumn) && unchanged(branchBitmap)
      requires |columns| == |old(columns)| && |rows| == |old(rows)| && RowsInv(rows, branchBitmap.columnCount)
      requires repr == old(repr) + versionMgmtColumn[tid].storages
      requires old(versionMgmtColumn[tid].storages) <= versionMgmtColumn[tid].storages
      requires fresh(versionMgmtColumn[tid].storages - old(versionMgmtColumn[tid].storages))
      requires ValidEntry(tid) && rows[tid].bits == old(rows)[tid].bits
      requires forall i | 0 <= i < |rows| && i != tid ::
                 && columns[i] == old(columns)[i] && rows[i] == old(rows)[i]
                 && unchanged(versionMgmtColumn[i]) && unchanged(versionMgmtColumn[i].storages)
      ensures Valid()
    {
      hide RowsInv, ValidEntry, BitmapTable.Valid, BitmapTable.Matrix;
      OthersStayValid(tid);
      StoragesStayDisjoint(tid);
    }

    twostate lemma OthersStayValid(tid: nat)
      requires old(Valid()) && tid < |old(rows)|
      requires versionMgmtColumn == old(versionMgmtColumn) && old(repr) <= repr
      requires |columns| == |old(columns)| && |rows| == |old(rows)| && ValidEntry(tid)
      requires forall i | 0 <= i < |rows| && i != tid ::
                 && columns[i] == old(columns)[i] && rows[i] == old(rows)[i]
                 && unchanged(versionMgmtColumn[i]) && unchanged(versionMgmtColumn[i].storages)
      ensures forall i | 0 <= i < |rows| :: ValidEntry(i)
    {
      hide RowsInv, BitmapTable.Valid, BitmapTable.Matrix, VersionEntry.Valid;
      forall i | 0 <= i < |rows| ensures ValidEntry(i) {
        assert old(ValidEntry(i));
      }
    }

    twostate lemma StoragesStayDisjoint(tid: nat)
      requires old(Valid()) && tid < |old(rows)|
      requires versionMgmtColumn == old(versionMgmtColumn) && |rows| == |old(rows)|
      requires fresh(versionMgmtColumn[tid].storages - old(versionMgmtColumn[tid].storages))
      requires forall i | 0 <= i < |rows| && i != tid :: unchanged(versionMgmtColumn[i])
      ensures forall i, j | 0 <= i < j < |rows| ::
                versionMgmtColumn[i] != versionMgmtColumn[j]
                && versionMgmtColumn[i].storages !! versionMgmtColumn[j].storages
    {
      hide RowsInv, BitmapTable.Valid, BitmapTable.Matrix, ValidEntry;
      forall i, j | 0 <= i < j < |rows|
        ensures versionMgmtColumn[i] != versionMgmtColumn[j]
        ensures versionMgmtColumn[i].storages !! versionMgmtColumn[j].storages
      {
        assert old(versionMgmtColumn[i].storages) !! old(versionMgmtColumn[j].storages);
        assert old(versionMgmtColumn[i].storages) <= old(repr) && old(versionMgmtColumn[j].storages) <= old(repr);
      }
    }

    // ----- reading

    ghost predicate AllScannable(b: nat)
      reads this
    {
      forall i | 0 <= i < |rows| :: rows[i].pos < |rows[i].log| && b < |rows[i].bits|
    }

    lemma ValidIsScannable(b: nat)
      requires Valid() && b < branchBitmap.columnCount
      ensures AllScannable(b) && |versionMgmtColumn| == |rows|
    {
      forall i | 0 <= i < |rows| ensures rows[i].pos < |rows[i].log| && b < |rows[i].bits| {
        assert ValidEntry(i);
      }
    }

    /** Reading a missing lineage makes it the empty one. */
    static method SelectBranch(branchId: nat, ctx: ExecutionContext)
      modifies ctx
      ensures ctx.branchId == branchId && ctx.branchLineage == LineageIn(old(ctx.branchLineages), branchId)
      ensures LineageIn(ctx.branchLineages, branchId) == LineageIn(old(ctx.branchLineages), branchId)
      ensures old(branchId in ctx.branchLineages) ==> ctx.branchLineages == old(ctx.branchLineages)
    {
      ctx.branchId := branchId;
      if branchId !in ctx.branchLineages {
        ctx.branchLineages := ctx.branchLineages[branchId := map[]];
      }
      ctx.branchLineage := ctx.branchLineages[branchId];
    }

    /** get_latest_entry: Success(None) stands for the null pointer, which tells the scan to read the
        columns. */
    method GetLatestEntry(tid: nat, branchId: nat, ctx: ExecutionContext) returns (r: Result<Option<Tuple>>)
      requires Valid() && ctx !in repr && tid < |rows| && rows[tid].pos < |rows[tid].log|
      modifies ctx
      ensures ctx.branchId == branchId && ctx.branchLineage == LineageIn(old(ctx.branchLineages), branchId)
      ensures LineageIn(ctx.branchLineages, branchId) == LineageIn(old(ctx.branchLineages), branchId)
      ensures old(branchId in ctx.branchLineages) ==> ctx.branchLineages == old(ctx.branchLineages)
      ensures Latest(rows[tid], branchId, ctx.branchLineage)
           == if r.Success? then Some(r.value.GetOr(columns[tid])) else None
    {
      hide RowsInv, BitmapTable.Matrix, BitmapTable.Valid, LineageIn;
      SelectBranch(branchId, ctx);
      var versionEntry := versionMgmtColumn[tid];
      assert ValidEntry(tid);
      if branchId == MASTER_BRANCH { return Success(None); }
      var element: object?, _ := versionEntry.GetLatestChainElement(ctx);
      if element == null {
        return Failure(NO_SUCH_TUPLE);
      } else if element == versionEntry {
        return Success(None);
      } else {
        return Success(Some((element as VersionedTupleStorage).data));
      }
    }

    /** The value that a scan of the branch pushes up for one tuple. */
    method ReadTuple(tid: nat, branchId: nat, ctx: ExecutionContext) returns (r: Result<Tuple>)
      requires Valid() && ctx !in repr && tid < |rows| && rows[tid].pos < |rows[tid].log|
      modifies ctx
      ensures LineageIn(ctx.branchLineages, branchId) == LineageIn(old(ctx.branchLineages), branchId)
      ensures old(branchId in ctx.branchLineages) ==> ctx.branchLineages == old(ctx.branchLineages)
      ensures Latest(rows[tid], branchId, LineageIn(ctx.branchLineages, branchId))
           == if r.Success? then Some(r.value) else None
    {
      if branchId != MASTER_BRANCH {
        var entry := GetLatestEntry(tid, branchId, ctx);
        if entry.Failure? { return Failure(entry.error); }
        return Success(entry.value.GetOr(columns[tid]));
      }
      assert ValidEntry(tid);
      return Success(columns[tid]);
    }

    /** The value held by a chain element. */
    method ValueOf(tid: nat, element: object, ghost age: nat) returns (value: Tuple)
      requires Valid() && tid < |rows| && age < |versionMgmtColumn[tid].nodes|
      requires element == versionMgmtColumn[tid].Below(age + 1)
      ensures age < |rows[tid].log| && value == rows[tid].log[age].value
    {
      assert ValidEntry(tid);
      if element == versionMgmtColumn[tid] { return columns[tid]; }
      return (element as VersionedTupleStorage).data;
    }

    /** produce_latest_tuple: what the branch resolves, unless the lineage filter drops the row. */
    method ProduceLatestTuple(tid: nat, ctx: ExecutionContext, ghost parents: seq<nat>) returns (r: Option<Tuple>)
      requires Valid() && tid < |rows| && Forest(parents) && ctx.branchId < |parents|
      requires branchBitmap.columnCount == |parents|
      requires ctx.branchLineage == LineageOf(parents, ctx.branchId)
      requires ctx.branchLineageBitset == LineageBitset(parents, ctx.branchId)
      ensures rows[tid].pos < |rows[tid].log| && r == FilteredLatest(rows[tid], parents, ctx.branchId)
    {
      hide BitmapTable.Valid, BitmapTable.Matrix, FilterKeeps, Intersects, LineageBitset, WritersExact;
      assert ValidEntry(tid) && RowInv(rows[tid], |parents|);
      if ctx.branchId == MASTER_BRANCH { return Some(columns[tid]); }
      FilterMeaning(rows[tid], parents, ctx.branchId);
      var versionEntry := versionMgmtColumn[tid];
      if !Intersects(ctx.branchLineageBitset, versionEntry.branchVisibility) { return None; }
      var element, age := versionEntry.GetLatestChainElement(ctx);
      if element == null { return None; }
      var value := ValueOf(tid, element, age);
      return Some(value);
    }

    /** produce_earliest_tuple: whatever version the branch reads, this is the tuple as inserted. */
    method ProduceEarliestTuple(tid: nat, ctx: ExecutionContext, ghost parents: seq<nat>) returns (r: Option<Tuple>)
      requires Valid() && tid < |rows| && Forest(parents) && ctx.branchId < |parents|
      requires branchBitmap.columnCount == |parents|
      requires ctx.branchLineage == LineageOf(parents, ctx.branchId)
      requires ctx.branchLineageBitset == LineageBitset(parents, ctx.branchId)
      ensures rows[tid].log != [] && (r.Some? ==> r.value == rows[tid].log[0].value)
      ensures r.Some? <==>
                && FilterKeeps(rows[tid].log, parents, ctx.branchId)
                && (ctx.branchId == MASTER_BRANCH || Resolve(rows[tid].log, ctx.branchId, ctx.branchLineage).Some?)
    {
      hide BitmapTable.Valid, BitmapTable.Matrix, FilterKeeps, Intersects, LineageBitset, WritersExact;
      assert ValidEntry(tid) && RowInv(rows[tid], |parents|);
      FilterMeaning(rows[tid], parents, ctx.branchId);
      var versionEntry := versionMgmtColumn[tid];
      if !Intersects(ctx.branchLineageBitset, versionEntry.branchVisibility) { return None; }
      var element := versionEntry.GetEarliestChainElement(ctx);
      if element == null { return None; }
      var value := ValueOf(tid, element, 0);
      return Some(value);
    }

    /** TableScan: the tuples whose bit is set for the branch, with the values the branch reads. */
    method Scan(branchId: nat, ctx: ExecutionContext) returns (r: Result<seq<(nat, Tuple)>>)
      requires Valid() && ctx !in repr && branchId < branchBitmap.columnCount
      modifies ctx
      ensures AllScannable(branchId)
      ensures r == match ScanRows(rows, branchId, LineageIn(old(ctx.branchLineages), branchId), |rows|)
                   case Some(tuples) => Success(tuples)
                   case None => Failure(NO_SUCH_TUPLE)
      ensures old(branchId in ctx.branchLineages) ==> ctx.branchLineages == old(ctx.branchLineages)
    {
      hide Valid, Latest;
      ghost var lineage := LineageIn(ctx.branchLineages, branchId);
      ValidIsScannable(branchId);
      var tuples := [];
      for tid := 0 to |versionMgmtColumn|
        invariant Valid()
        invariant LineageIn(ctx.branchLineages, branchId) == lineage
        invariant old(branchId in ctx.branchLineages) ==> ctx.branchLineages == old(ctx.branchLineages)
        invariant ScanRows(rows, branchId, lineage, tid) == Some(tuples)
      {
        ValidBit(tid, branchId);
        if branchBitmap.IsSet(tid, branchId) {
          var value := ReadTuple(tid, branchId, ctx);
          if value.Failure? {
            ScanStaysFailed(rows, branchId, lineage, tid + 1, |rows|);
            return Failure(NO_SUCH_TUPLE);
          }
          tuples := tuples + [(tid, value.value)];
        }
      }
      return Success(tuples);
    }

    lemma ValidBit(tid: nat, branch: nat)
      requires Valid() && tid < |rows| && branch < branchBitmap.columnCount
      ensures branchBitmap.Valid() && tid < |branchBitmap.data| && branch < |rows[tid].bits|
      ensures branchBitmap.Matrix()[tid][branch] == rows[tid].bits[branch]
    {
      assert rows[tid].bits == branchBitmap.Matrix()[tid];
    }
  }

  lemma RowsHaveWidth(rows: seq<VersionedRow>, n: nat)
    requires RowsInv(rows, n)
    ensures forall i | 0 <= i < |rows| :: |rows[i].bits| == n
  {
  }

  /** The bits of the rows follow the columns of the bitmap. */
  lemma BranchedBits(rows: seq<VersionedRow>, n: nat, parent: nat, m: seq<seq<bool>>)
    requires RowsInv(rows, n) && |m| == |rows| && (parent == INVALID_BRANCH || parent < n)
    requires forall i | 0 <= i < |rows| :: rows[i].bits == m[i]
    ensures forall i | 0 <= i < |rows| :: |rows[i].bits| == n
    ensures var after := BranchRows(rows, n, parent);
            var bits := if parent == INVALID_BRANCH then seq(|m|, _ => false) else ColumnOf(m, parent);
            && |after| == |rows| == |WithColumn(m, bits)|
            && (forall i | 0 <= i < |rows| :: after[i].bits == WithColumn(m, bits)[i])
            && (forall i | 0 <= i < |rows| :: after[i].(bits := rows[i].bits) == rows[i])
  {
  }

  function LineageIn(lineages: map<nat, map<nat, nat>>, branch: nat): map<nat, nat>
  {
    if branch in lineages then lineages[branch] else map[]
  }
}
