/** The database: the branch forest, the tables, and the execution of operations against them. */
module Database {
  import opened Wrappers
  import opened Lineage
  import opened VersionLog
  import opened VersionChain
  import opened VersionedTable
  import PrivateCopies

  datatype Branch = Branch(id: nat, parentId: nat, name: string)

  class Database {
    var tables: map<string, Table>
    var branches: map<nat, Branch>
    var branchMapping: map<string, nat>
    var nextBranchId: nat
    ghost var parents: seq<nat>
    ghost var repr: set<object>
    /** The versions and bitmaps of all tables. */
    ghost var store: PrivateCopies.Store
    /** What the database means: every branch owns private copies of the tables. */
    ghost var model: PrivateCopies.Naive

    ghost predicate ValidBranches()
      reads this
    {
      && Forest(parents)
      && nextBranchId == |parents|
      && (forall b :: b in branches <==> 0 <= b < nextBranchId)
      && (forall b | b in branches :: branches[b].id == b && branches[b].parentId == parents[b])
    }

    ghost predicate ValidHeap()
      reads this, repr
      ensures ValidHeap() ==> this in repr
    {
      && this in repr
      && ValidBranches()
      && (forall n | n in tables ::
            tables[n] in repr && tables[n] in tables[n].repr && tables[n].repr <= repr
            && this !in tables[n].repr)
      && store.parents == parents && store.tables.Keys == tables.Keys
      && (forall n {:trigger ValidTable(n)} | n in tables :: ValidTable(n))
      && PrivateCopies.StoreInv(store)
      && (forall m, n | m in tables && n in tables && m != n ::
            tables[m] != tables[n] && tables[m].repr !! tables[n].repr)
    }

    ghost predicate ValidTable(n: string)
      reads this, repr
      requires n in tables && tables[n] in repr && tables[n].repr <= repr
    {
      var t := tables[n];
      && t.Valid()
      && t.branchBitmap.columnCount == |parents|
      && n in store.tables && store.tables[n] == t.rows
    }

    ghost predicate Valid()
      reads this, repr
      ensures Valid() ==> ValidHeap()
    {
      ValidHeap() && PrivateCopies.Refines(store, model)
    }

    constructor ()
      ensures Valid() && fresh(repr) && model == PrivateCopies.EMPTY_NAIVE && store == PrivateCopies.EMPTY_STORE
    {
      tables, branches, branchMapping := map[], map[], map[];
      branches := map[MASTER_BRANCH := Branch(MASTER_BRANCH, INVALID_BRANCH, "master")];
      branchMapping := map["master" := MASTER_BRANCH];
      nextBranchId := 1;
      parents := [INVALID_BRANCH];
      repr := {this};
      store := PrivateCopies.EMPTY_STORE;
      model := PrivateCopies.EMPTY_NAIVE;
    }

    function GetLargestBranchId(): nat
      reads this
      requires ValidBranches()
    {
      nextBranchId - 1
    }

    /** Every table gets a column for the branch, then the branch is registered.  Throws, before the
        branch is registered, if there is a table and its bitmap is full. */
    method CreateBranch(name: string, parent: nat) returns (r: Result<nat>)
      requires ValidHeap() && PrivateCopies.Legal(store, PrivateCopies.CreateBranch(parent))
      modifies repr
      ensures r == if tables.Keys == {} || |old(parents)| < BITMAP_COLUMNS then Success(|old(parents)|)
                   else Failure(BITMAP_FULL)
      ensures repr == old(repr) && model == old(model) && tables == old(tables)
      ensures r.Failure? ==> unchanged(this)
      ensures r.Success? ==>
                && ValidHeap() && parents == old(parents) + [parent]
                && branches[r.value] == Branch(r.value, parent, name)
                && branchMapping == old(branchMapping)[name := r.value]
                && store == PrivateCopies.Step(old(store), PrivateCopies.CreateBranch(parent))
    {
      hide PrivateCopies.StoreInv, PrivateCopies.Step, PrivateCopies.Legal, Table.Valid, Forest;
      var added := AddBranchColumns(parent);
      if !added { return Failure(BITMAP_FULL); }
      GrownForest(parent);
      var branchId := RegisterBranch(name, parent);
      PrivateCopies.StepKeepsInv(store, PrivateCopies.CreateBranch(parent));
      store := PrivateCopies.Step(store, PrivateCopies.CreateBranch(parent));
      BranchedHeapIsValid(parent);
      return Success(branchId);
    }

    lemma GrownForest(parent: nat)
      requires ValidBranches() && store.parents == parents && PrivateCopies.StoreInv(store)
      requires PrivateCopies.Legal(store, PrivateCopies.CreateBranch(parent))
      ensures Forest(parents + [parent])
    {
    }

    method RegisterBranch(name: string, parent: nat) returns (branchId: nat)
      requires ValidBranches() && Forest(parents + [parent])
      modifies `nextBranchId, `branches, `branchMapping, `parents
      ensures ValidBranches() && parents == old(parents) + [parent] && branchId == |old(parents)|
      ensures branches == old(branches)[branchId := Branch(branchId, parent, name)]
      ensures branchMapping == old(branchMapping)[name := branchId]
    {
      branchId := nextBranchId;
      nextBranchId := nextBranchId + 1;
      branches := branches[branchId := Branch(branchId, parent, name)];
      branchMapping := branchMapping[name := branchId];
      parents := parents + [parent];
    }

    twostate lemma BranchedHeapIsValid(parent: nat)
      requires old(ValidHeap()) && old(PrivateCopies.Legal(store, PrivateCopies.CreateBranch(parent)))
      requires ValidBranches() && parents == old(parents) + [parent]
      requires unchanged(`tables, `repr)
      requires store == PrivateCopies.Step(old(store), PrivateCopies.CreateBranch(parent))
      requires PrivateCopies.StoreInv(store)
      requires forall n | n in tables :: BranchAdded(tables[n], parent)
      ensures ValidHeap()
    {
      hide Table.Valid, PrivateCopies.StoreInv, Forest, BranchRows;
      forall n | n in tables ensures ValidTable(n) {
        assert old(ValidTable(n)) && BranchAdded(tables[n], parent);
      }
    }

    method AddBranchColumns(parent: nat) returns (added: bool)
      requires ValidHeap() && PrivateCopies.Legal(store, PrivateCopies.CreateBranch(parent))
      modifies repr - {this}
      ensures added <==> tables.Keys == {} || nextBranchId < BITMAP_COLUMNS
      ensures added ==> forall n | n in tables :: BranchAdded(tables[n], parent)
    {
      hide PrivateCopies.StoreInv, Forest, ValidTable, HasColumns, Table.Valid, BranchRows;
      forall n | n in tables ensures HasColumns(tables[n]) {
        ValidTableHasColumns(n);
      }
      var todo := tables.Keys;
      while todo != {}
        invariant todo <= tables.Keys
        invariant todo == tables.Keys || nextBranchId < BITMAP_COLUMNS
        invariant forall n | n in tables && n !in todo ::
                    BranchAdded(tables[n], parent) && tables[n].repr == old(tables[n].repr)
        invariant forall n | n in todo :: unchanged(tables[n]) && unchanged(tables[n].repr)
        decreases todo
      {
        var n :| n in todo;
        assert old(HasColumns(tables[n]));
        var r := AddBranchColumn(tables[n], parent);
        if r.Failure? { return false; }
        todo := todo - {n};
      }
      return true;
    }

    method AddBranchColumn(t: Table, parent: nat) returns (r: Result<()>)
      requires t.repr !! {this} && HasColumns(t) && (parent == INVALID_BRANCH || parent < |parents|)
      modifies t.repr
      ensures r == if |parents| < BITMAP_COLUMNS then Success(()) else Failure(BITMAP_FULL)
      ensures r.Success? ==> BranchAdded(t, parent) && t.repr == old(t.repr)
    {
      r := t.CreateBranch(parent);
    }

    /** One bitmap column, and one bit of every row, for every branch. */
    ghost predicate HasColumns(t: Table)
      reads this, t, t.repr
    {
      && t.Valid() && t.branchBitmap.columnCount == |parents|
      && forall i | 0 <= i < |t.rows| :: |t.rows[i].bits| == |parents|
    }

    lemma ValidTableHasColumns(n: string)
      requires ValidHeap() && n in tables
      ensures HasColumns(tables[n])
    {
      assert ValidTable(n);
    }

    twostate predicate BranchAdded(t: Table, parent: nat)
      reads t, t.repr
    {
      && t.repr == old(t.repr) && t.Valid()
      && t.branchBitmap.columnCount == old(t.branchBitmap.columnCount) + 1
      && (forall i | 0 <= i < |old(t.rows)| :: |old(t.rows)[i].bits| == old(t.branchBitmap.columnCount))
      && (parent == INVALID_BRANCH || parent < old(t.branchBitmap.columnCount))
      && t.rows == BranchRows(old(t.rows), old(t.branchBitmap.columnCount), parent)
    }

    /** insert_tuple_with_branchId */
    method InsertTuple(name: string, branch: nat, tuple: Tuple, ctx: ExecutionContext) returns (tid: nat)
      requires ValidHeap() && ctx !in repr && name in tables && branch < nextBranchId
      modifies ctx, tables[name].repr, this`repr, this`store
      ensures ValidHeap() && old(repr) <= repr && fresh(repr - old(repr))
      ensures ctx.branchLineages == old(ctx.branchLineages)
      ensures store == PrivateCopies.Step(old(store), PrivateCopies.Insert(name, branch, tuple))
      ensures tid == |old(store).tables[name]|
    {
      hide Table.Valid, PrivateCopies.StoreInv, Forest, InsertRow;
      ctx.branchId := branch;
      assert ValidTable(name);
      tid := tables[name].InsertTuple(tuple, ctx, GetLargestBranchId());
      RecordStep(name, PrivateCopies.Insert(name, branch, tuple));
      TableReplaced(name);
    }

    /** update_tuple_with_branchId in a context that holds the branch's lineage.  Throws, and changes
        nothing, if the branch resolves no version of the row. */
    method UpdateTuple(name: string, branch: nat, tid: nat, tuple: Tuple, ctx: ExecutionContext) returns (r: Result<()>)
      requires ValidHeap() && ctx !in repr
      requires PrivateCopies.RowExists(store, name, branch, tid)
      requires ctx.branchLineage == LineageOf(parents, branch)
      modifies ctx, tables[name].repr, this`repr, this`store
      ensures ValidHeap() && old(repr) <= repr && fresh(repr - old(repr))
      ensures ctx.branchLineages == old(ctx.branchLineages)
      ensures r == if PrivateCopies.Throws(old(store).tables[name][tid], parents, branch)
                   then Failure(NO_SUCH_TUPLE) else Success(())
      ensures store == PrivateCopies.Step(old(store), PrivateCopies.Update(name, branch, tid, tuple))
    {
      hide Table.Valid, PrivateCopies.StoreInv, Forest, LineageOf, LineageBitset, Resolve, UpdateRow;
      ctx.branchId := branch;
      assert ValidTable(name);
      ghost var rows := tables[name].rows;
      assert rows[tid := rows[tid]] == rows;
      r := tables[name].UpdateTuple(tid, tuple, ctx, GetLargestBranchId());
      RecordStep(name, PrivateCopies.Update(name, branch, tid, tuple));
      TableReplaced(name);
    }

    /** delete_tuple_with_branchId */
    method DeleteTuple(name: string, branch: nat, tid: nat, ctx: ExecutionContext)
      requires ValidHeap() && ctx !in repr
      requires PrivateCopies.RowExists(store, name, branch, tid)
      modifies ctx, tables[name].repr, this`repr, this`store
      ensures ValidHeap() && old(repr) <= repr && fresh(repr - old(repr))
      ensures ctx.branchLineages == old(ctx.branchLineages)
      ensures store == PrivateCopies.Step(old(store), PrivateCopies.Delete(name, branch, tid))
    {
      hide Table.Valid, PrivateCopies.StoreInv, Forest, DeleteRow;
      ctx.branchId := branch;
      assert ValidTable(name);
      tables[name].DeleteTuple(tid, ctx);
      RecordStep(name, PrivateCopies.Delete(name, branch, tid));
      TableReplaced(name);
    }

    /** Records that `op` wrote to table `name`. */
    ghost method RecordStep(name: string, op: PrivateCopies.Op)
      requires name in tables && PrivateCopies.StoreInv(store) && PrivateCopies.Legal(store, op)
      modifies this`repr, this`store
      ensures repr == old(repr) + tables[name].repr
      ensures store == PrivateCopies.Step(old(store), op) && PrivateCopies.StoreInv(store)
    {
      PrivateCopies.StepKeepsInv(store, op);
      repr := repr + tables[name].repr;
      store := PrivateCopies.Step(store, op);
    }

    /** Only table `name` was written to. */
    twostate lemma TableReplaced(name: string)
      requires old(ValidHeap()) && name in tables
      requires unchanged(`tables, `branches, `nextBranchId, `parents)
      requires repr == old(repr) + tables[name].repr
      requires old(tables[name].repr) <= tables[name].repr && fresh(tables[name].repr - old(tables[name].repr))
      requires store.parents == parents && store.tables == old(store).tables[name := tables[name].rows]
      requires PrivateCopies.StoreInv(store)
      requires tables[name] in tables[name].repr && ValidTable(name)
      requires forall n | n in tables && n != name :: unchanged(tables[n]) && unchanged(tables[n].repr)
      ensures ValidHeap()
    {
      hide Table.Valid, PrivateCopies.StoreInv, Forest, ValidTable;
      OtherTablesStayValid(name);
      TablesStayApart(name);
    }

    twostate lemma OtherTablesStayValid(name: string)
      requires old(ValidHeap()) && name in tables && unchanged(`tables, `parents) && old(repr) <= repr
      requires store.tables == old(store).tables[name := tables[name].rows]
      requires forall n | n in tables && n != name :: unchanged(tables[n]) && unchanged(tables[n].repr)
      ensures forall n | n in tables && n != name :: tables[n].repr <= repr && ValidTable(n)
    {
      hide Table.Valid, PrivateCopies.StoreInv, Forest;
      forall n | n in tables && n != name ensures tables[n].repr <= repr && ValidTable(n) {
        assert old(ValidTable(n));
      }
    }

    twostate lemma TablesStayApart(name: string)
      requires old(ValidHeap()) && name in tables && unchanged(`tables)
      requires fresh(tables[name].repr - old(tables[name].repr))
      requires forall n | n in tables && n != name :: unchanged(tables[n])
      ensures forall m, n | m in tables && n in tables && m != n ::
                tables[m] != tables[n] && tables[m].repr !! tables[n].repr
    {
      hide Table.Valid, PrivateCopies.StoreInv, Forest, ValidTable;
      forall m, n | m in tables && n in tables && m != n
        ensures tables[m] != tables[n] && tables[m].repr !! tables[n].repr
      {
        assert old(tables[m].repr) !! old(tables[n].repr);
        assert old(tables[m].repr) <= old(repr) && old(tables[n].repr) <= old(repr);
      }
    }

    /** Contexts outlive queries: a lineage they hold is the lineage of its branch. */
    ghost predicate ValidContext(ctx: ExecutionContext)
      reads this, ctx
      requires ValidBranches()
    {
      forall b | b in ctx.branchLineages :: b < |parents| && ctx.branchLineages[b] == LineageOf(parents, b)
    }

    /** Runs one operation, while the bitmap has room for the branches. */
    method Execute(op: PrivateCopies.Op, ctx: ExecutionContext)
      requires Valid() && ctx !in repr && ValidContext(ctx)
      requires PrivateCopies.NaiveInv(model) && PrivateCopies.NaiveLegal(model, op)
      requires op.CreateTable? ==> model.branches <= BITMAP_COLUMNS
      requires op.CreateBranch? ==> model.branches < BITMAP_COLUMNS
      modifies repr, ctx
      ensures Valid() && ctx !in repr && ValidContext(ctx) && old(repr) <= repr && fresh(repr - old(repr))
      ensures model == PrivateCopies.NaiveStep(old(model), op) && PrivateCopies.StoreFollows(old(store), op, store)
    {
      PrivateCopies.LegalAgrees(store, model, op);
      match op
      case CreateTable(t) => ExecuteCreateTable(t);
      case CreateBranch(p) => ExecuteCreateBranch(p, ctx);
      case Insert(t, b, v) => var _ := ExecuteInsert(t, b, v, ctx);
      case Update(t, b, tid, v) => var _ := ExecuteUpdate(t, b, tid, v, ctx);
      case Delete(t, b, tid) => ExecuteDelete(t, b, tid, ctx);
    }

    method ExecuteCreateTable(name: string)
      requires Valid() && PrivateCopies.Legal(store, PrivateCopies.CreateTable(name)) && nextBranchId <= BITMAP_COLUMNS
      modifies this
      ensures Valid() && old(repr) <= repr && fresh(repr - old(repr)) && parents == old(parents)
      ensures PrivateCopies.Follows(old(model), PrivateCopies.CreateTable(name), model)
      ensures PrivateCopies.StoreFollows(old(store), PrivateCopies.CreateTable(name), store)
    {
      ghost var before := store;
      CreateTable(name);
      Advance(before, PrivateCopies.CreateTable(name));
    }

    method ExecuteCreateBranch(parent: nat, ctx: ExecutionContext)
      requires Valid() && ctx !in repr && ValidContext(ctx)
      requires PrivateCopies.Legal(store, PrivateCopies.CreateBranch(parent))
      requires tables.Keys == {} || nextBranchId < BITMAP_COLUMNS
      modifies repr
      ensures Valid() && repr == old(repr) && ValidContext(ctx)
      ensures PrivateCopies.Follows(old(model), PrivateCopies.CreateBranch(parent), model)
      ensures PrivateCopies.StoreFollows(old(store), PrivateCopies.CreateBranch(parent), store)
    {
      ghost var before := store;
      forall b | b in ctx.branchLineages
        ensures b < |parents| && LineageOf(parents + [parent], b) == LineageOf(parents, b)
      {
        LineageIsStable(parents, parent, b);
      }
      var _ := CreateBranch("", parent);
      Advance(before, PrivateCopies.CreateBranch(parent));
    }

    method ExecuteInsert(name: string, branch: nat, tuple: Tuple, ctx: ExecutionContext) returns (tid: nat)
      requires Valid() && ctx !in repr && PrivateCopies.Legal(store, PrivateCopies.Insert(name, branch, tuple))
      modifies ctx, repr
      ensures Valid() && old(repr) <= repr && fresh(repr - old(repr)) && parents == old(parents)
      ensures ctx.branchLineages == old(ctx.branchLineages)
      ensures PrivateCopies.Follows(old(model), PrivateCopies.Insert(name, branch, tuple), model)
      ensures PrivateCopies.StoreFollows(old(store), PrivateCopies.Insert(name, branch, tuple), store)
      ensures tid == |old(store).tables[name]|
    {
      ghost var before := store;
      tid := InsertTuple(name, branch, tuple, ctx);
      Advance(before, PrivateCopies.Insert(name, branch, tuple));
    }

    /** The context of a query on the branch. */
    method EnterBranch(branch: nat, ctx: ExecutionContext)
      requires Valid() && ctx !in repr && ValidContext(ctx) && branch < |parents|
      modifies ctx
      ensures ValidContext(ctx) && ctx.branchLineage == LineageOf(parents, branch)
      ensures ctx.branchLineageBitset == LineageBitset(parents, branch)
      ensures branch in ctx.branchLineages
    {
      hide Table.Valid, PrivateCopies.StoreInv, PrivateCopies.Refines, Forest, LineageOf, LineageBitset, ValidTable;
      ConstructBranchLineage(branch, ctx);
    }

    lemma OfferedDoesNotThrow(name: string, branch: nat, tid: nat)
      requires Valid() && PrivateCopies.RowExists(store, name, branch, tid)
      ensures PrivateCopies.ScanWouldProduce(store, name, branch, tid) ==>
                !PrivateCopies.Throws(store.tables[name][tid], parents, branch)
    {
      hide Table.Valid, PrivateCopies.StoreInv, PrivateCopies.Refines, Forest, ValidTable;
      if PrivateCopies.ScanWouldProduce(store, name, branch, tid) {
        PrivateCopies.SetBitResolves(store, model, name, branch, tid);
      }
    }

    /** An update of a row that a scan of the branch produced never throws. */
    method ExecuteUpdate(name: string, branch: nat, tid: nat, tuple: Tuple, ctx: ExecutionContext)
      returns (r: Result<()>)
      requires Valid() && ctx !in repr && ValidContext(ctx)
      requires PrivateCopies.Legal(store, PrivateCopies.Update(name, branch, tid, tuple))
      modifies ctx, repr
      ensures Valid() && old(repr) <= repr && fresh(repr - old(repr)) && parents == old(parents) && ValidContext(ctx)
      ensures PrivateCopies.Follows(old(model), PrivateCopies.Update(name, branch, tid, tuple), model)
      ensures PrivateCopies.StoreFollows(old(store), PrivateCopies.Update(name, branch, tid, tuple), store)
      ensures old(PrivateCopies.ScanWouldProduce(store, name, branch, tid)) ==> r.Success?
      ensures r.Failure? <==> old(PrivateCopies.Throws(store.tables[name][tid], parents, branch))
    {
      hide Table.Valid, PrivateCopies.StoreInv, Forest, LineageOf, LineageBitset, ValidTable, PrivateCopies.Refines,
           PrivateCopies.Step, PrivateCopies.Follows, PrivateCopies.StoreFollows, PrivateCopies.Throws,
           PrivateCopies.ScanWouldProduce, Resolve;
      ghost var before := store;
      OfferedDoesNotThrow(name, branch, tid);
      EnterBranch(branch, ctx);
      r := UpdateTuple(name, branch, tid, tuple, ctx);
      Advance(before, PrivateCopies.Update(name, branch, tid, tuple));
    }

    method ExecuteDelete(name: string, branch: nat, tid: nat, ctx: ExecutionContext)
      requires Valid() && ctx !in repr && PrivateCopies.Legal(store, PrivateCopies.Delete(name, branch, tid))
      modifies ctx, repr
      ensures Valid() && old(repr) <= repr && fresh(repr - old(repr)) && parents == old(parents)
      ensures ctx.branchLineages == old(ctx.branchLineages)
      ensures PrivateCopies.Follows(old(model), PrivateCopies.Delete(name, branch, tid), model)
      ensures PrivateCopies.StoreFollows(old(store), PrivateCopies.Delete(name, branch, tid), store)
    {
      ghost var before := store;
      DeleteTuple(name, branch, tid, ctx);
      Advance(before, PrivateCopies.Delete(name, branch, tid));
    }

    ghost method Advance(before: PrivateCopies.Store, op: PrivateCopies.Op)
      requires ValidHeap() && PrivateCopies.StoreInv(before) && PrivateCopies.Refines(before, model)
      requires PrivateCopies.Legal(before, op) && store == PrivateCopies.Step(before, op)
      modifies this`model
      ensures Valid() && PrivateCopies.Follows(old(model), op, model) && PrivateCopies.StoreFollows(before, op, store)
    {
      PrivateCopies.StepRefines(before, model, op);
      SetModel(PrivateCopies.NaiveStep(model, op));
    }

    ghost method SetModel(m: PrivateCopies.Naive)
      requires ValidHeap()
      modifies this`model
      ensures ValidHeap() && model == m
    {
      model := m;
      forall n | n in tables ensures ValidTable(n) {
        assert old(ValidTable(n));
      }
    }

    /** A query on a branch yields the branch's private copy, in the order of the tuple ids. */
    method ScanTable(name: string, branch: nat, ctx: ExecutionContext) returns (r: Result<seq<(nat, Tuple)>>)
      requires Valid() && ctx !in repr && ValidContext(ctx)
      requires name in model.tables && branch < |model.tables[name].copies|
      modifies ctx
      ensures r == Success(PrivateCopies.Listing(model.tables[name].copies[branch], model.tables[name].count))
      ensures ValidContext(ctx)
    {
      assert ValidTable(name);
      assert PrivateCopies.TableRefines(tables[name].rows, parents, model.tables[name]);
      PrivateCopies.ScanIsListing(tables[name].rows, parents, branch, model.tables[name], |tables[name].rows|);
      ConstructBranchLineage(branch, ctx);
      r := tables[name].Scan(branch, ctx);
    }

    /** After an insert in `branch`: what a native read of the new tuple in `other` finds, and whether an
        update there throws. */
    method InsertAndProbe(name: string, branch: nat, tuple: Tuple, other: nat, later: Tuple, ctx: ExecutionContext)
      returns (seen: Option<Tuple>, updated: Result<()>)
      requires Valid() && ctx !in repr && ValidContext(ctx) && other < |parents|
      requires PrivateCopies.Legal(store, PrivateCopies.Insert(name, branch, tuple))
      modifies ctx, repr
      ensures Valid()
      ensures seen == if other == branch || other == MASTER_BRANCH then Some(tuple) else None
      ensures updated.Failure? <==> other != branch && other != MASTER_BRANCH
    {
      hide Table.Valid, PrivateCopies.StoreInv, PrivateCopies.Refines, PrivateCopies.Step, Forest, FilteredLatest,
           ValidTable, PrivateCopies.Throws, PrivateCopies.Follows, Valid;
      PrivateCopies.InsertedIsPrivate(store, name, branch, tuple, other);
      ghost var tid := |store.tables[name]|;
      var next := ExecuteInsert(name, branch, tuple, ctx);
      seen := ProduceLatestTuple(name, next, other, ctx);
      updated := ExecuteUpdate(name, other, next, later, ctx);
    }

    /** A native read of one tuple in a branch.  Unlike a scan it asks the lineage filter, not the bitmap. */
    method ProduceLatestTuple(name: string, tid: nat, branch: nat, ctx: ExecutionContext) returns (r: Option<Tuple>)
      requires Valid() && ctx !in repr && ValidContext(ctx) && PrivateCopies.RowExists(store, name, branch, tid)
      modifies ctx
      ensures ValidContext(ctx)
      ensures var row := store.tables[name][tid];
              row.pos < |row.log| && r == FilteredLatest(row, parents, branch)
      ensures PrivateCopies.ScanWouldProduce(store, name, branch, tid) && WritersCoverLog(store.tables[name][tid]) ==>
                && name in model.tables && branch < |model.tables[name].copies|
                && tid in model.tables[name].copies[branch] && r == Some(model.tables[name].copies[branch][tid])
    {
      hide Table.Valid, PrivateCopies.StoreInv, PrivateCopies.Refines, Forest, FilteredLatest, WritersCoverLog;
      assert ValidTable(name);
      EnterBranch(branch, ctx);
      ctx.branchId := branch;
      r := tables[name].ProduceLatestTuple(tid, ctx, parents);
      if PrivateCopies.ScanWouldProduce(store, name, branch, tid) && WritersCoverLog(store.tables[name][tid]) {
        PrivateCopies.CoveredRead(store, model, name, branch, tid);
      }
    }

    method ProduceEarliestTuple(name: string, tid: nat, branch: nat, ctx: ExecutionContext) returns (r: Option<Tuple>)
      requires Valid() && ctx !in repr && ValidContext(ctx) && PrivateCopies.RowExists(store, name, branch, tid)
      modifies ctx
      ensures ValidContext(ctx)
      ensures var log := store.tables[name][tid].log;
              && log != [] && (r.Some? ==> r.value == log[0].value)
              && (r.Some? <==>
                    && FilterKeeps(log, parents, branch)
                    && (branch == MASTER_BRANCH || Resolve(log, branch, LineageOf(parents, branch)).Some?))
    {
      hide Table.Valid, PrivateCopies.StoreInv, PrivateCopies.Refines, Forest, FilterKeeps;
      assert ValidTable(name);
      EnterBranch(branch, ctx);
      ctx.branchId := branch;
      r := tables[name].ProduceEarliestTuple(tid, ctx, parents);
    }

    method CreateTable(name: string)
      requires ValidHeap() && name !in tables && nextBranchId <= BITMAP_COLUMNS
      modifies this`tables, this`repr, this`store
      ensures ValidHeap() && parents == old(parents) && model == old(model)
      ensures old(repr) <= repr && fresh(repr - old(repr))
      ensures store == PrivateCopies.Step(old(store), PrivateCopies.CreateTable(name))
    {
      hide PrivateCopies.StoreInv, Forest, BranchRows;
      var table := new Table();
      CountBranches();
      var i := 0;
      while i < |branches| - 1
        invariant 0 <= i <= |branches| - 1 && unchanged(this)
        invariant table.Valid() && fresh(table.repr) && table.rows == [] && table.branchBitmap.columnCount == 1 + i
      {
        var _ := table.CreateBranch(INVALID_BRANCH);
        i := i + 1;
      }
      tables := tables[name := table];
      RecordStep(name, PrivateCopies.CreateTable(name));
      TableAdded(name);
    }

    twostate lemma TableAdded(name: string)
      requires old(ValidHeap()) && name !in old(tables) && name in tables && tables == old(tables)[name := tables[name]]
      requires unchanged(`branches, `nextBranchId, `parents) && unchanged(old(repr) - {this})
      requires fresh(tables[name]) && fresh(tables[name].repr) && repr == old(repr) + tables[name].repr
      requires tables[name] in tables[name].repr && tables[name].rows == [] && ValidTable(name)
      requires store.parents == parents && store.tables == old(store).tables[name := []]
      requires PrivateCopies.StoreInv(store)
      ensures ValidHeap()
    {
      hide Table.Valid, PrivateCopies.StoreInv, Forest, ValidTable;
      OtherTablesKept(name);
    }

    /** The tables that were there are valid and apart from the new one. */
    twostate lemma OtherTablesKept(name: string)
      requires old(ValidHeap()) && name !in old(tables) && name in tables && tables == old(tables)[name := tables[name]]
      requires unchanged(`parents) && unchanged(old(repr) - {this}) && fresh(tables[name].repr)
      requires repr == old(repr) + tables[name].repr
      requires store.tables == old(store).tables[name := []]
      ensures forall n | n in old(tables) :: tables[n] in repr && tables[n].repr <= old(repr) && ValidTable(n)
    {
      hide Table.Valid, PrivateCopies.StoreInv, Forest;
      forall n | n in old(tables) ensures tables[n] in repr && tables[n].repr <= old(repr) && ValidTable(n) {
        assert old(ValidTable(n));
      }
    }

    lemma CountBranches()
      requires ValidBranches()
      ensures |branches| == nextBranchId >= 1
    {
      CountBelow(branches.Keys, nextBranchId);
    }

    /** An empty lineage and bitset; a cached lineage is kept. */
    method StartLineage(branch: nat, ctx: ExecutionContext, ghost all: map<nat, nat>)
      requires branch in ctx.branchLineages ==> ctx.branchLineages[branch] == all
      modifies ctx`branchLineages, ctx`branchLineage, ctx`branchLineageBitset
      ensures ctx.branchLineage == map[] && ctx.branchLineageBitset == seq(nextBranchId, _ => false)
      ensures LineagesBetween(old(ctx.branchLineages), ctx.branchLineages, branch, map[], all)
    {
      if branch !in ctx.branchLineages {
        ctx.branchLineages := ctx.branchLineages[branch := map[]];
      }
      ctx.branchLineage := map[];
      ctx.branchLineageBitset := seq(nextBranchId, _ => false);
    }

    method RecordParent(branch: nat, current: nat, parent: nat, ctx: ExecutionContext)
      requires branch in ctx.branchLineages
      modifies ctx`branchLineages, ctx`branchLineage
      ensures ctx.branchLineages
           == old(ctx.branchLineages)[branch := Inserted(old(ctx.branchLineages)[branch], parent, current)]
      ensures ctx.branchLineage == Inserted(old(ctx.branchLineage), parent, current)
    {
      ctx.branchLineages := ctx.branchLineages[branch := Inserted(ctx.branchLineages[branch], parent, current)];
      ctx.branchLineage := Inserted(ctx.branchLineage, parent, current);
    }

    /** Fills in the lineage of a branch by walking up to its root. */
    method ConstructBranchLineage(branch: nat, ctx: ExecutionContext)
      requires ValidBranches() && branch < nextBranchId
      requires branch in ctx.branchLineages ==> ctx.branchLineages[branch] == LineageOf(parents, branch)
      modifies ctx
      ensures ctx.branchId == old(ctx.branchId)
      ensures ctx.branchLineage == LineageOf(parents, branch)
      ensures ctx.branchLineages == old(ctx.branchLineages)[branch := LineageOf(parents, branch)]
      ensures ctx.branchLineageBitset == LineageBitset(parents, branch)
    {
      ghost var all := LineageOf(parents, branch);
      StartLineage(branch, ctx, all);
      var current := branch;
      while true
        invariant current < nextBranchId
        invariant current == branch || current in ctx.branchLineage
        invariant LineageSplit(all, ctx.branchLineage, LineageOf(parents, current), current)
        invariant ctx.branchId == old(ctx.branchId)
        invariant LineagesBetween(old(ctx.branchLineages), ctx.branchLineages, branch, ctx.branchLineage, all)
        invariant Marked(ctx.branchLineageBitset, branch, ctx.branchLineage, nextBranchId, current)
        decreases current
      {
        ctx.branchLineageBitset := ctx.branchLineageBitset[current := true];
        var parent := branches[current].parentId;
        if parent == INVALID_BRANCH { break; }
        SplitStep(parents, all, ctx.branchLineage, current);
        ghost var before := ctx.branchLineages;
        InsertStaysBetween(old(ctx.branchLineages), before, branch, ctx.branchLineage, all, parent, current);
        RecordParent(branch, current, parent, ctx);
        current := parent;
      }
      WalkEnds(all, ctx.branchLineage, current, old(ctx.branchLineages), ctx.branchLineages, branch);
    }
  }

  ghost predicate SubMap(m: map<nat, nat>, all: map<nat, nat>)
  {
    forall a | a in m :: a in all && m[a] == all[a]
  }

  /** The walk has collected `done`, all of it at or above `current`, and `rest` is left. */
  ghost predicate LineageSplit(all: map<nat, nat>, done: map<nat, nat>, rest: map<nat, nat>, current: nat)
  {
    && SubMap(done, all) && SubMap(rest, all)
    && (forall a | a in all :: a in done || a in rest)
    && (forall a | a in done :: current <= a)
  }

  /** Only the lineage of `branch` changed; it holds at least `done` and nothing that is not in `all`. */
  ghost predicate LineagesBetween(
    before: map<nat, map<nat, nat>>, now: map<nat, map<nat, nat>>, branch: nat, done: map<nat, nat>, all: map<nat, nat>)
  {
    && branch in now && now == before[branch := now[branch]]
    && SubMap(now[branch], all) && SubMap(done, now[branch])
  }

  lemma InsertStaysBetween(
    before: map<nat, map<nat, nat>>, now: map<nat, map<nat, nat>>, branch: nat, done: map<nat, nat>, all: map<nat, nat>,
    key: nat, value: nat)
    requires LineagesBetween(before, now, branch, done, all) && key in all && all[key] == value
    ensures LineagesBetween(before, now[branch := Inserted(now[branch], key, value)], branch,
                            Inserted(done, key, value), all)
  {}

  /** The bits of `branch` and of the collected ancestors are set, except the one of `current`. */
  ghost predicate Marked(bits: seq<bool>, branch: nat, done: map<nat, nat>, n: nat, current: nat)
  {
    && |bits| == n
    && forall a | 0 <= a < n :: bits[a] <==> a != current && (a == branch || a in done)
  }

  lemma SplitStep(parents: seq<nat>, all: map<nat, nat>, done: map<nat, nat>, current: nat)
    requires Forest(parents) && current < |parents| && !IsRoot(parents, current)
    requires LineageSplit(all, done, LineageOf(parents, current), current)
    ensures var p := parents[current];
            && p !in done && p in all && all[p] == current
            && LineageSplit(all, Inserted(done, p, current), LineageOf(parents, p), p)
  {
    LineageMeaning(parents, parents[current]);
    assert parents[current] in LineageOf(parents, current);
  }

  lemma WalkEnds(all: map<nat, nat>, done: map<nat, nat>, current: nat,
                 before: map<nat, map<nat, nat>>, now: map<nat, map<nat, nat>>, branch: nat)
    requires LineageSplit(all, done, map[], current) && LineagesBetween(before, now, branch, done, all)
    ensures done == all && now == before[branch := all]
  {
    assert now[branch] == all;
  }

  /** Insertion into a hash map keeps a value that is already there. */
  function Inserted(m: map<nat, nat>, key: nat, value: nat): map<nat, nat>
  {
    if key in m then m else m[key := value]
  }

  lemma {:induction false} CountBelow(s: set<nat>, n: nat)
    requires forall b :: b in s <==> 0 <= b < n
    ensures |s| == n
  {
    if n > 0 {
      CountBelow(s - {n - 1}, n - 1);
    }
  }

  /** Every accepted run can be executed on a new database. */
  method RunAll(ops: seq<PrivateCopies.Op>) returns (db: Database, ctx: ExecutionContext)
    requires PrivateCopies.NaiveRun(ops).Some?
    requires PrivateCopies.NaiveRun(ops).value.branches <= BITMAP_COLUMNS
    ensures fresh(db.repr) && fresh(ctx) && db.Valid() && ctx !in db.repr && db.ValidContext(ctx)
    ensures db.model == PrivateCopies.NaiveRun(ops).value && PrivateCopies.Run(ops) == Some(db.store)
  {
    hide PrivateCopies.Refines, PrivateCopies.StoreInv, PrivateCopies.Legal, PrivateCopies.Step,
         PrivateCopies.Listing, PrivateCopies.NaiveInv, PrivateCopies.NaiveLegal, Database.ValidTable;
    db := new Database();
    ctx := new ExecutionContext();
    for i := 0 to |ops|
      invariant db.Valid() && ctx !in db.repr && db.ValidContext(ctx) && fresh(db.repr) && fresh(ctx)
      invariant PrivateCopies.NaiveRun(ops[..i]) == Some(db.model)
      invariant PrivateCopies.Run(ops[..i]) == Some(db.store)
    {
      PrivateCopies.NextStepIsLegal(ops, i);
      PrivateCopies.RunGoesOn(ops, i);
      db.Execute(ops[i], ctx);
    }
    assert ops[..|ops|] == ops;
  }

  /** And afterwards a query on any branch finds exactly what the naive store of private copies holds
      for it. */
  method RunAndScan(ops: seq<PrivateCopies.Op>, name: string, branch: nat) returns (r: Result<seq<(nat, Tuple)>>)
    requires PrivateCopies.NaiveRun(ops).Some?
    requires PrivateCopies.NaiveRun(ops).value.branches <= BITMAP_COLUMNS
    requires var m := PrivateCopies.NaiveRun(ops).value;
             name in m.tables && branch < |m.tables[name].copies|
    ensures var t := PrivateCopies.NaiveRun(ops).value.tables[name];
            r == Success(PrivateCopies.Listing(t.copies[branch], t.count))
  {
    var db, ctx := RunAll(ops);
    r := db.ScanTable(name, branch, ctx);
  }

  /** After a run in which master only updates what it has, the lineage filter loses nothing: a native
      read of a tuple of the private copy yields its value. */
  method RunAndProduce(ops: seq<PrivateCopies.Op>, name: string, tid: nat, branch: nat) returns (r: Option<Tuple>)
    requires PrivateCopies.NaiveRun(ops).Some? && PrivateCopies.MasterUpdatesOffered(ops)
    requires PrivateCopies.NaiveRun(ops).value.branches <= BITMAP_COLUMNS
    requires var m := PrivateCopies.NaiveRun(ops).value;
             && name in m.tables && branch < |m.tables[name].copies| && tid in m.tables[name].copies[branch]
    ensures r == Some(PrivateCopies.NaiveRun(ops).value.tables[name].copies[branch][tid])
  {
    hide PrivateCopies.Run, PrivateCopies.NaiveRun, Database.Valid;
    var db, ctx := RunAll(ops);
    PrivateCopies.CopiedIsScanned(ops, name, branch, tid);
    r := db.ProduceLatestTuple(name, tid, branch, ctx);
  }
}
