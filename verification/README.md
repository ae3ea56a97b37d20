# Verified model of the branching database

A main-memory database with branches keeps one copy of every table for all branches and compiles
queries to native code.  This project models its storage and its query operators in Dafny and proves
what they promise.  `dafny verify dfyconfig.toml` checks everything.

**Branching version store** (`Lineage`, `VersionLog`, `PrivateCopies`, `BitmapTable`, `VersionChain`,
`VersionedTable`, `Database`).  Every tuple has one chain of versions: the current master version sits in
an entry that a master update moves to the front, all other versions sit in linked storage nodes.  A
bitmap with one column per branch says which branches have the tuple.  The chain is modelled with real
node objects whose pointers are rewired in place; a ghost log of versions says what the chain means.
The main result is `PrivateCopies.ScanAfterRun`, carried to the heap by `Database.RunAndScan`: after any
run of creating tables and branches, inserting, updating and deleting, a scan of a branch yields exactly
what it would yield if every branch owned a private copy of every table, taken from its parent when the
branch was created.

**Optimistic lock** (`OptimisticLock`).  The versioned lock as atomic steps of any number of threads on any
number of nodes, with every interleaving: mutual exclusion, validated reads, finality of obsolete nodes.

**Hash structures and the query pipeline** (`Hashtable`, `StaticHashtable`, `QueryPlan`,
`LogicalOperators`, `HashJoins`, `Pipeline`, `PlanMeaning`, `Queries`, `GroupBy`, with `FlatMaps` and
`Buckets`).  The growing hash table whose insert and rehash call each other, the join table built by
relinking a list, the analysis that decides which columns survive, the build/probe join and grouped
aggregation.  `Pipeline.ProduceResult` says that a whole query outputs the bag of a naive evaluation with
filters and nested loops, `PlanMeaning` what that evaluation yields row by row, and `Queries.RunAndQuery`
puts it on top of the store: the naive evaluation reads the private copies.

**Arithmetic with bounds** (`Calendar`, `DecimalText`, `DateText`, `ScaledIntegers`, `NumericText`,
`FixedPoint`, `CompiledExpressions`).  Calendar conversion after the Calendar FAQ, section 2.15.1, in 32-bit
unsigned arithmetic, printers and parsers for dates, timestamps and numerics, and the compilation of typed
fixed-point expressions, whose results are compared with exact rational values.

## How to read it

A function such as `PrivateCopies.Step`, `VersionLog.UpdateRow` or `DateText.ParseDate` describes what a
step does; the methods with the same subject do it on objects, with loops, and are proved equal to it.
Exceptions are `Failure` or `None`.  Ghost parameters and ghost fields only serve the proofs.

Where the code and what one would expect of it differ, the code is kept and the difference is stated
exactly:

- The lineage filter loses rows that master updated without having them: `VersionLog.FilterDropsIff` says
  exactly which, for which branches, and `FilterDropsRowOfOtherBranch` is such a row.  After a run in which
  master only updates what a scan of master offers, nothing is lost (`PrivateCopies.FilterAfterRun`).
- The date parser accepts February 31, dates without leading zeros and years above 2^32
  (`DateText.AcceptedDates`); `DateText.PrintsBackIffRealDate` says when an accepted text prints back.
- The numeric parser silently reads another number when the scaled number does not fit into 64 bits
  (`NumericText.ExactIff`, `NumericText.TooLargeIsAccepted`).
- Whole numbers of 19 digits are printed but rejected by the parser (`NumericText.NumericRoundTrip`).
- Casting an integer to a numeric is not checked for overflow (`FixedPoint.CastIsExactIff`), and a product
  whose precisions add up to more than 18 is mislabelled (`FixedPoint.ProductMeansProductIff` and
  `MislabelledProduct`); a product with an integer counts the digits of the numeric twice
  (`FixedPoint.BuiltType`).
- Validation of a version succeeds again after 2^62 write sections (`OptimisticLock.ValidationAfterSections`
  and `ValidationCanMissWrites`).
- An overflow in a grouping raises a flag, and the aggregation goes on with the wrapped sums
  (`GroupBy.Aggregate`).
- A grouping compares combined key hashes and never the keys, so its results are stated per hash;
  `GroupBy.GroupsAreKeyGroupsIff` says when that is per key, and `EveryHashMergesGroups` that no hash of
  64 bits makes it so for all keys.

## Model

| member | source | states |
|---|---|---|
| `Lineage.LineageMeaning` | foundations/Database.cpp:371-381 | The lineage of a branch holds exactly its proper ancestors in the branch forest, each mapped to the child through which the path leaves it. |
| `Lineage.ChildOnPathIsUnique` | foundations/Database.cpp:371-381 | The child on the path is determined by the path, so the statement above fixes the lineage completely. |
| `Lineage.LineageIsStable` | foundations/Database.cpp:347-359 | Creating a branch leaves the lineage of every existing branch as it was, so contexts may cache lineages. |
| `VersionLog.VisibleMeansWrittenBeforeFork` | foundations/version_management.cpp:8-20 | A version is visible in a branch if and only if the branch wrote it, or an ancestor wrote it before the path to the branch forked off. |
| `VersionLog.NewestVisible` | foundations/version_management.cpp:197-213 | The version found is visible, and every newer version is not; -1 only if no version is visible. |
| `VersionLog.NewBranchSeesItsParent` | foundations/version_management.cpp:8-20 | A version that existed when a branch was created is visible in it exactly when it is visible in its parent. |
| `VersionLog.BranchResolvesAsParent` | foundations/Database.cpp:347-359 | A branch just created resolves a row as its parent does: from a parent other than master always, from master if and only if the entry holds a version of master. |
| `VersionLog.MasterShortcutIsNewestVisible` | foundations/version_management.cpp:190-195 | "Return the entry" agrees with "return the newest visible version" if and only if the entry holds a version of master, as it does wherever the bit of master is set. |
| `VersionLog.InsertIsolation` | foundations/version_management.cpp:45-55 | An inserted tuple is resolved by the inserting branch and by no other existing branch, also not by one that was created from the inserting branch before. |
| `VersionLog.UpdateIsolation` | foundations/version_management.cpp:102-171 | After an update in b, b resolves the new value and every other existing branch, master included, resolves what it resolved before; for master updates too. |
| `VersionLog.UpdateKeepsRowsInv` | foundations/version_management.cpp:102-171 | An update, also of a row that is not marked for the branch, keeps the row invariants: no master version is newer than the entry, and a set master bit means the entry holds a master version. |
| `VersionLog.UpdateKeepsWritersExact` | foundations/version_management.cpp:102-171 | Whoever updates whatever row, the branches marked as writers stay exactly the one that inserted the row and those other than master that updated it. |
| `VersionLog.InsertKeepsRowsInv` | foundations/version_management.cpp:37-67 | An insert keeps the row invariants. |
| `VersionLog.DeleteKeepsRowsInv` | foundations/version_management.cpp:178-182 | A delete keeps the row invariants. |
| `VersionLog.BranchKeepsInv` | foundations/Database.cpp:218-226 | Adding the column of a new branch keeps the row invariants. |
| `VersionLog.FilterNeverDrops` | foundations/version_management.hpp:48-50 | While every writer of a row is marked, the lineage bitset filter never drops a row in which the branch resolves a version. |
| `VersionLog.FilterMeaning` | foundations/version_management.hpp:48-50 | The bitset filter keeps a row for a branch if and only if the branch or an ancestor inserted it, or updated it as a branch other than master. |
| `VersionLog.FilterDropsIff` | foundations/version_management.hpp:48-50 | The filter drops a row that a branch resolves if and only if all that the branch and its ancestors wrote to the row are updates by master. |
| `VersionLog.CoveredIff` | foundations/version_management.cpp:111-143 | All writers of a row are marked if and only if master inserted it or never updated it. |
| `VersionLog.FilterDropsRowOfOtherBranch` | foundations/version_management.cpp:111-143 | Such a dropped row exists: inserted by branch 1, then updated by master although it was not visible there; a branch created from master afterwards loses it, and so does a branch created from that one. |
| `VersionLog.ScanStaysFailed` | foundations/version_management.cpp:281-282 | A scan that reached "no such tuple" does not recover. |
| `PrivateCopies.StepKeepsInv` | foundations/version_management.cpp:37-182 | Every legal operation keeps the invariants of the shared store: a branch forest and well-formed rows. |
| `PrivateCopies.LegalAgrees` | foundations/version_management.cpp:37-182 | The shared and the naive store accept the same operations: on tables, branches and tuple ids that exist, whether or not the tuple is in the private copy of the branch. |
| `PrivateCopies.StepRefines` | foundations/version_management.cpp:37-214 | One operation on the shared store does to what every branch reads exactly what the naive store of private copies does; writing to a tuple that a branch does not have does nothing to any copy. |
| `PrivateCopies.RunRefines` | foundations/version_management.cpp:37-214 | Any run that is accepted is accepted by the naive store, and the reached states refine each other. |
| `PrivateCopies.ScanIsListing` | algebra/physical/TableScan.cpp:57-150 | In refining states a scan of a branch does not throw and lists the private copy of the branch in tuple id order. |
| `PrivateCopies.ScanAfterRun` | algebra/physical/TableScan.cpp:57-150 | Whole-run refinement: after any accepted run, scanning branch b yields exactly the private copy that the naive store keeps for b. |
| `PrivateCopies.NaiveStepMeaning` | foundations/version_management.cpp:37-182 | What the private copies hold, value by value: an operation changes at most one value of one existing copy, and a new branch starts with what its parent has. |
| `PrivateCopies.ListingMeaning` | algebra/physical/TableScan.cpp:57-86 | A listing holds exactly the tuples of a private copy, by increasing ids. |
| `PrivateCopies.ExampleRun` | foundations/version_management.cpp:37-182 | A concrete run with every operation, and the values that it leaves in its two branches. |
| `PrivateCopies.SetBitResolves` | foundations/version_management.cpp:271-289 | A set bit implies that the tuple is in the private copy and that the chain resolves a version for the branch, so that neither a scan nor an update throws. |
| `PrivateCopies.InsertedIsPrivate` | foundations/version_management.cpp:37-67 | After an insert in b, a native read finds the tuple in b and in master only, and an update throws in every other branch that exists. |
| `PrivateCopies.StepKeepsWritersCovered` | foundations/version_management.cpp:37-182 | An operation keeps all writers of all rows marked, if a master update only reaches tuples that a scan of master offered. |
| `PrivateCopies.RunCovered` | foundations/version_management.cpp:37-182 | So they are marked after every accepted run in which master only updates such tuples; other branches may update anything. |
| `PrivateCopies.FilterAfterRun` | foundations/version_management.hpp:48-50 | After any accepted run the filter keeps exactly the rows that FilterMeaning names, and after such a run it never drops a row in which the branch resolves a version. |
| `PrivateCopies.CoveredRead` | foundations/version_management.hpp:123-145 | Where all writers are marked, the read with the filter in front yields the value in the private copy. |
| `BitmapTable.AssignBitSetsOneBit` | foundations/Database.cpp:76-79 | The xor trick on one byte sets the addressed bit to the value and leaves the other seven bits alone. |
| `BitmapTable.BitmapTable.constructor` | foundations/Database.cpp:20-25 | An empty matrix with room for at least the hinted number of columns and fewer than eight more. |
| `BitmapTable.BitmapTable.IsSet` | foundations/Database.cpp:82-96 | Reads one cell of the row-by-branch matrix from the packed bytes. |
| `BitmapTable.BitmapTable.Set` | foundations/Database.cpp:65-80 | Changes one cell of the matrix and no other. |
| `BitmapTable.BitmapTable.AddRow` | foundations/Database.cpp:58-63 | Appends a row of clear cells. |
| `BitmapTable.BitmapTable.AddColumn` | foundations/Database.cpp:27-40 | Appends a clear column, or throws when the bytes are full; the column counter is incremented either way. |
| `BitmapTable.BitmapTable.CloneColumn` | foundations/Database.cpp:42-55 | Appends a copy of the original column, or throws when the bytes are full. |
| `VersionChain.VersionEntry.constructor` | foundations/version_management.cpp:45-55 | A chain that consists of the entry alone, with the inserting branch as its only writer. |
| `VersionChain.VersionEntry.PushMaster` | foundations/version_management.cpp:111-143 | The master update: the chain stays well-formed, the log gains the new version at its end, the entry moves there, and the old version stays readable at its place. |
| `VersionChain.VersionEntry.SpliceCopy` | foundations/version_management.cpp:112-129 | The copy takes over the links of the entry; the only other pointer that changes is the one that led to the entry. |
| `VersionChain.VersionEntry.PushedMasterIsValid` | foundations/version_management.cpp:111-143 | The pointer updates of a master update re-establish the whole chain invariant. |
| `VersionChain.VersionEntry.PushBranch` | foundations/version_management.cpp:150-170 | A branch update: the chain stays well-formed, the log gains the version, the entry stays where it is, the branch is marked as a writer. |
| `VersionChain.VersionEntry.PushedBranchIsValid` | foundations/version_management.cpp:150-170 | The pointer updates of a branch update re-establish the whole chain invariant. |
| `VersionChain.VersionEntry.HeadAndPrev` | foundations/version_management.cpp:123-127 | The head is the entry exactly when nothing newer exists; otherwise prev is the node whose next is the entry. |
| `VersionChain.VersionEntry.GetLatestChainElement` | foundations/version_management.cpp:190-214 | The pointer walk ends at the newest version visible to the branch, or at null if there is none; master gets the entry. |
| `VersionChain.VersionEntry.LinkLowersRank` | foundations/version_management.cpp:120-138 | Every next_in_branch pointer, also one that points at the mutated entry, leads to an element of smaller rank: branch nodes before the entry before former master versions. |
| `VersionChain.VersionEntry.GetEarliestChainElement` | foundations/version_management.cpp:216-234 | The walk along next_in_branch terminates, at the version that was inserted first, for every branch that resolves the tuple; otherwise the result is null. |
| `VersionChain.VersionEntry.FreeStorages` | foundations/version_management.cpp:316-325 | Following next from first visits every storage node ever allocated for the tuple exactly once and ends. |
| `VersionChain.VersionEntry.DestroyChain` | foundations/version_management.cpp:315-329 | Frees every storage node once and leaves a chain that consists of the entry. |
| `VersionedTable.Table.InsertTuple` | foundations/version_management.cpp:37-67 | Appends one row: chain, columns and bitmap together are the row "inserted by the current branch". |
| `VersionedTable.Table.AddRow` | foundations/Database.cpp:194-204 | The new row is visible in the inserting branch and in no other. |
| `VersionedTable.Table.UpdateTuple` | foundations/version_management.cpp:102-171 | Fails and changes nothing if and only if a branch other than master resolves no version; otherwise exactly the row of the tuple changes, as the row update says. The bit of the branch does not matter. |
| `VersionedTable.Table.DeleteTuple` | foundations/version_management.cpp:178-182 | Clears the bit of the current branch; chain and columns stay. |
| `VersionedTable.Table.CreateBranch` | foundations/Database.cpp:218-226 | Every row gets the parent's bit, or a clear bit without a parent; throws if and only if all eight columns are used, and then has counted the column but changed no row. |
| `VersionedTable.Table.GetLatestEntry` | foundations/version_management.cpp:271-289 | Reading a null result as "take the columns", the result is exactly what the row resolves in the branch; the exception if and only if it resolves nothing. |
| `VersionedTable.Table.ReadTuple` | algebra/physical/TableScan.cpp:99-126 | The value a scan pushes up is the one the branch resolves; a missing version is the exception. |
| `VersionedTable.Table.ProduceLatestTuple` | foundations/version_management.hpp:123-145 | For any row: the master value for master; for another branch the resolved value if the filter keeps the row, otherwise nothing. |
| `VersionedTable.Table.ProduceEarliestTuple` | foundations/version_management.hpp:148-164 | Whatever the branch reads, the produced tuple is the one that was inserted; it is produced if and only if the filter keeps the row and the branch, unless it is master, resolves a version. |
| `VersionedTable.Table.Scan` | algebra/physical/TableScan.cpp:57-150 | The loop over all tuple ids produces the rows whose bit is set, with the values the branch resolves. |
| `Database.Database.constructor` | foundations/Database.cpp:316-321 | A database with the master branch and no tables, which refines the empty naive store. |
| `Database.Database.ConstructBranchLineage` | foundations/Database.cpp:361-382 | Terminates on every branch forest and fills in the lineage, the cached lineage and the bitset of the branch. |
| `Database.Database.CreateBranch` | foundations/Database.cpp:347-359 | Gives every table a column for the branch and registers it under its name with the next id and its parent; throws, without registering it, if and only if there is a table and all eight columns are used. |
| `Database.Database.CreateTable` | foundations/Database.cpp:323-330 | An empty table with one bitmap column per branch. |
| `Database.Database.UpdateTuple` | foundations/version_management.cpp:173-176 | The update step of the store; throws and changes nothing if and only if a branch other than master resolves no version of the tuple. |
| `Database.Database.ExecuteUpdate` | foundations/version_management.cpp:173-176 | Does to the private copies what the naive store does; throws exactly where a branch other than master resolves no version, and so never on a tuple that a scan of the branch offered. |
| `Database.Database.DeleteTuple` | foundations/version_management.cpp:184-188 | The delete step of the store, for any existing tuple. |
| `Database.Database.Execute` | foundations/version_management.cpp:37-188 | Every operation that the naive store allows runs on the heap, keeps all invariants and does to the model what the naive store does. |
| `Database.Database.ScanTable` | algebra/physical/TableScan.cpp:57-150 | A query on a branch lists the private copy of the branch and never throws. |
| `Database.RunAll` | foundations/version_management.cpp:37-188 | Any accepted run executes on real nodes, bytes and maps, keeps all invariants, and ends in a database that holds the shared store of the run and means what the naive run means. |
| `Database.RunAndScan` | foundations/version_management.cpp:37-214 | End to end: any accepted run followed by a scan yields the private copy of the branch. |
| `Database.Database.ProduceLatestTuple` | foundations/version_management.hpp:123-145 | A native read in a branch of any reached database: what the filter lets through, and the value in the private copy wherever all writers are marked. |
| `Database.Database.InsertAndProbe` | foundations/version_management.cpp:37-72 | On the heap: after an insert in one branch, a native read in another finds nothing, except in master, and an update there throws. |
| `Database.Database.ProduceEarliestTuple` | foundations/version_management.hpp:148-164 | A native read of the inserted tuple in any reached database, with its exact condition. |
| `Database.RunAndProduce` | foundations/version_management.hpp:123-145 | End to end: after any accepted run in which master only updates tuples that it has, a native read of a tuple of the private copy yields its value. |
| `OptimisticLock.StepKeepsInv` | utils/optimistic_lock.hpp:21-119 | Every atomic step of any thread keeps the protocol invariant: the lock word is four times the number of write sections, modulo 2^64, plus the two flags; a section is open exactly while the locked flag is set. |
| `OptimisticLock.ReadGetsVersion` | utils/optimistic_lock.hpp:32-49 | A reader waits on a locked node; otherwise it gets the word and is told to restart exactly if the node is obsolete. |
| `OptimisticLock.UpgradeBegins` | utils/optimistic_lock.hpp:85-89 | Upgrading a current version locks the node and leaves its data and all other nodes alone; upgrading another version changes no node. |
| `OptimisticLock.Endings` | utils/optimistic_lock.hpp:73-83 | A write section ends unlocked and not obsolete, unlocked and obsolete, or (downgrading) with the writer reading the version it leaves; nothing else changes. |
| `OptimisticLock.FailingReleases` | utils/optimistic_lock.hpp:63-99 | A failing validation or upgrade with a lock held elsewhere releases that lock, normally, and the thread is idle on both nodes. |
| `OptimisticLock.RunInv` | utils/optimistic_lock.hpp:21-119 | The invariant holds in every state of every interleaving, however often the words wrap around. |
| `OptimisticLock.MutualExclusion` | utils/optimistic_lock.hpp:85-99 | In every state of every run at most one thread is in a write section of a node, there is one if and only if the word is locked, and no word is locked and obsolete. |
| `OptimisticLock.OnlySectionsChangeNodes` | utils/optimistic_lock.hpp:73-99 | A node whose word is not locked stays as it is until the next write section begins. |
| `OptimisticLock.ValidatedReadSawNoWrite` | utils/optimistic_lock.hpp:51-71 | If the lock word equals the version a reader got, and fewer than 2^62 write sections began since the read, the node did not change at all in between; the run before may be of any length. |
| `OptimisticLock.ObsoleteIsFinal` | utils/optimistic_lock.hpp:79-83 | In every run an obsolete node is never locked again and never changes. |
| `OptimisticLock.ObsoleteIff` | utils/optimistic_lock.hpp:79-83 | In a run a node is obsolete if and only if an earlier action unlocked it as obsolete. |
| `OptimisticLock.LockOnlyGrowsInRun` | utils/optimistic_lock.hpp:73-83 | The lock word never decreases along a run until the word has wrapped around. |
| `OptimisticLock.UpgradeNeedsRestartCheck` | utils/optimistic_lock.hpp:85-89 | Upgrading a version gives a locked word that is obsolete too exactly when the reader was told to restart. |
| `OptimisticLock.ValidationAfterSections` | utils/optimistic_lock.hpp:51-77 | In a run, validation of a held version succeeds if and only if the node is unlocked, as obsolete as it was, and a multiple of 2^62 write sections began since the read. |
| `OptimisticLock.ValidationCanMissWrites` | utils/optimistic_lock.hpp:51-77 | There is a run in which validation succeeds although the data was written since the read. |
| `Hashtable.OneDoublingIsEnough` | foundations/Hashtable.cpp:164-188 | A table that reached its threshold doubles once; a table of size one doubles twice, because the reinsertion rehashes again. |
| `Hashtable.Hashtable.constructor` | foundations/Hashtable.cpp:18-27 | An empty table whose size is the least power of two that is not below the hint. |
| `Hashtable.Hashtable.Insert` | foundations/Hashtable.cpp:132-162 | Terminates through any nesting with rehash; the node is added, equal hashes stay adjacent in the right bucket, the distinct hashes are counted and less than three quarters of the size; the table is kept as long as there is room for one more. |
| `Hashtable.Hashtable.BucketMeaning` | foundations/Hashtable.cpp:132-157 | A bucket holds exactly the nodes whose hash code is its index modulo the table size, each once. |
| `Hashtable.Hashtable.InsertNew` | foundations/Hashtable.cpp:123-130 | Allocates a node with the hash and inserts it. |
| `Hashtable.Hashtable.Rehash` | foundations/Hashtable.cpp:164-188 | At least doubles the table, keeps exactly the nodes it had and re-establishes the load bound. |
| `Hashtable.Hashtable.Link` | foundations/Hashtable.cpp:138-157 | The node goes in front of the nodes with its hash, or to the end of the bucket; the counter changes only for a new hash. |
| `Hashtable.Hashtable.FindPlace` | foundations/Hashtable.cpp:144-153 | The walk stops at the first node with the hash or at the end, and knows the node before. |
| `Hashtable.Hashtable.Build` | foundations/Hashtable.cpp:109-121 | Inserts every node of a linked list although inserting relinks the list. |
| `Hashtable.Hashtable.Lookup` | foundations/Hashtable.cpp:61-76 | Finds the first node of the group with the hash; null if and only if no node has it. |
| `Hashtable.Hashtable.FindAll` | foundations/Hashtable.cpp:97-107 | Lookup followed by next(node, h) enumerates exactly the nodes inserted with the hash, each once. |
| `Hashtable.Hashtable.VisitAll` | foundations/Hashtable.cpp:49-95 | First followed by next visits every node exactly once. |
| `Hashtable.Hashtable.VisitBuckets` | foundations/Hashtable.cpp:306-352 | The generated loop over all buckets visits every node exactly once. |
| `Hashtable.InsertedIsGrouped` | foundations/Hashtable.cpp:144-157 | Insertion at the place where the walk stops keeps equal hashes adjacent. |
| `StaticHashtable.JoinList.Append` | algebra/physical/HashJoin.cpp:107-150 | Storing through the last pointer appends one node, also to an empty list. |
| `StaticHashtable.StaticHashtable.constructor` | foundations/StaticHashtable.cpp:17-31 | The table size is the least power of two with a load of at most three quarters, and every bucket is built. |
| `StaticHashtable.StaticHashtable.Build` | foundations/StaticHashtable.cpp:69-87 | Relinks the list in place: every bucket links exactly the nodes that hash to it, the latest first. |
| `StaticHashtable.StaticHashtable.Lookup` | foundations/StaticHashtable.cpp:39-53 | Finds the node that was inserted last among those with the hash, or null if there is none. |
| `StaticHashtable.StaticHashtable.Matches` | foundations/StaticHashtable.cpp:137-169 | Lookup and bucket iteration hand over exactly the tuples stored with the hash, the latest first. |
| `StaticHashtable.FilteredChain` | foundations/StaticHashtable.cpp:69-87 | Filtering one bucket by the hash gives the same nodes as filtering the whole list. |
| `StaticHashtable.WithHashMeaning` | foundations/StaticHashtable.cpp:137-169 | What a probe visits are exactly the nodes of the list with the hash. |
| `StaticHashtable.WithHashIsDistinct` | foundations/StaticHashtable.cpp:137-169 | Each of them once. |
| `QueryPlan.EvaluateDependsOnRequired` | algebra/logical/operators.cpp:503-561 | An expression evaluates alike on rows that agree on the columns collected for it, and these columns suffice to evaluate it. |
| `QueryPlan.RequiredIsProduced` | algebra/logical/operators.cpp:284-371 | In a well-scoped tree an operator requires what its parent expects and nothing that its subtree does not produce. |
| `QueryPlan.SidesPartitionRequired` | algebra/logical/operators.cpp:150-167 | The left and right required sets of a join are disjoint, make up its required set, are what each side is asked for, and cover the join keys. |
| `QueryPlan.ColumnDemand` | algebra/logical/operators.cpp:140-167 | In every well-scoped tree every node finds the columns it requires in its children. |
| `PlanMeaning.CollectsWhatIsRead` | algebra/logical/operators.cpp:503-561 | The columns collected for an expression are exactly those that occur in it. |
| `PlanMeaning.RequiredIsLeast` | algebra/logical/operators.cpp:284-371 | The required set is the least one that holds what the parent expects and what the expressions of the operator read. |
| `LogicalOperators.Operator.UpdateProducedSets` | algebra/logical/operators.cpp:69-138 | The bottom-up traversal leaves the produced set of its subtree in every node. |
| `LogicalOperators.Operator.UpdateRequiredSets` | algebra/logical/operators.cpp:75-148 | The top-down traversal leaves in every node the required set, and in every join its two sides. |
| `LogicalOperators.Result.UpdateSets` | algebra/logical/operators.cpp:42-52 | Both traversals from the root bring the whole tree up to date. |
| `HashJoins.GenJoinHash` | algebra/physical/HashJoin.cpp:178-203 | The loop computes the combined hash: the first key's hash, the others combined in order, 0 without keys. |
| `HashJoins.MatchingRowsHashAlike` | algebra/physical/HashJoin.cpp:178-203 | If equal values hash alike, rows that are equal on all join pairs have the same joint hash. |
| `HashJoins.PrunedSidesMatchAlike` | algebra/physical/HashJoin.cpp:276-288 | Rows match after pruning to the key columns if and only if they match before. |
| `HashJoins.OtherHashesDoNotMatch` | algebra/physical/HashJoin.cpp:345-384 | Probing only the nodes with the probe hash loses no match. |
| `HashJoins.HashJoin.ConsumeLeft` | algebra/physical/HashJoin.cpp:345-368 | Stores the build columns of the row with their position map and joint hash at the end of the list. |
| `HashJoins.HashJoin.BuildTable` | algebra/physical/HashJoin.cpp:236-239 | The filled list becomes the probe table over the same nodes. |
| `HashJoins.HashJoin.ProbeCandidate` | algebra/physical/HashJoin.cpp:249-300 | Emits the merged row if and only if all pairs are equal; the merged row is the stored row plus the probe columns. |
| `HashJoins.HashJoin.ConsumeRight` | algebra/physical/HashJoin.cpp:370-384 | For one probe row the bag emitted is that of the nested loop over all stored rows. |
| `Pipeline.SelectKeepsBag` | algebra/physical/Select.cpp:24-36 | Inputs that are equal as bags on the required columns are filtered to outputs equal as bags on the expected columns. |
| `Pipeline.JoinPruned` | algebra/physical/HashJoin.cpp:264-299 | One pair of rows joins to the same expected columns before and after both sides were pruned. |
| `Pipeline.NestedLoopPruned` | algebra/logical/operators.cpp:150-167 | Pruning both inputs of a nested loop to the sides of the required set does not change the expected columns of its output. |
| `Pipeline.JoinKeepsBag` | algebra/physical/HashJoin.cpp:228-247 | A join of pruned, reordered inputs emits the bag of the naive join on the expected columns. |
| `Pipeline.ProduceScan` | algebra/physical/TableScan.cpp:89-150 | A scan passes on the required columns of every row. |
| `Pipeline.ConsumeSelect` | algebra/physical/Select.cpp:24-36 | A select passes on exactly the rows that satisfy the condition, unmodified. |
| `Pipeline.ProduceJoin` | algebra/physical/HashJoin.cpp:228-247 | Fill the list, build the table, probe: the bag of the nested-loop equi-join of the two inputs, for a non-empty build input. |
| `Pipeline.Produce` | algebra/physical/HashJoin.cpp:228-300 | By induction over the tree: what an operator pushes to its parent is, on the expected columns, the bag of the naive tree semantics, and carries the columns expected. |
| `Pipeline.ProduceResult` | algebra/physical/Print.cpp:47-65 | A whole query outputs the bag of the naive tree, projected to the selection. |
| `PlanMeaning.SelectCounts` | algebra/physical/Select.cpp:24-36 | A row leaves a select as often as it came if its condition is not zero, and never otherwise. |
| `PlanMeaning.ProjectionIs` | algebra/physical/Print.cpp:47-65 | A projection yields one row for each, with the wanted columns and their values. |
| `PlanMeaning.JoinCounts` | algebra/physical/HashJoin.cpp:276-299 | As many output rows of a nested loop satisfy any given property as there are a left and a right row whose join expressions are all equal and whose union satisfies it. |
| `PlanMeaning.JoinRows` | algebra/physical/HashJoin.cpp:276-299 | A row is in the output of a nested loop if and only if it is the union of a left and a right row whose join expressions are all equal. |
| `PlanMeaning.SelectMeaning` | algebra/physical/Select.cpp:24-36 | The same for a select anywhere in the naive tree. |
| `PlanMeaning.JoinMeaning` | algebra/physical/HashJoin.cpp:276-299 | The same for the rows of a join anywhere in the naive tree. |
| `PlanMeaning.JoinSize` | algebra/physical/HashJoin.cpp:276-299 | Its output is as long as there are pairs of a left and a right row whose join expressions are all equal. |
| `Queries.BuildTree` | algebra/physical/TableScan.cpp:57-150 | Scanning the heap for every table of a query, each in its branch, gives the operator tree over the private copies. |
| `Queries.RunQuery` | algebra/physical/Print.cpp:47-65 | A query over tables of branches outputs the bag of the naive tree over the private copies of these branches. |
| `Queries.RunAndQuery` | algebra/physical/Print.cpp:47-65 | End to end: after any accepted run a query outputs the bag of the naive tree over what the naive store holds. |
| `Queries.FromMeaning` | algebra/physical/TableScan.cpp:57-150 | A query reads of a table one row for each tuple of the private copy of its branch, with the value of each column under its name. |
| `Queries.OtherBranchesDoNotShow` | foundations/version_management.cpp:102-182 | No operation changes what a query means unless it writes to a branch that the query reads. |
| `GroupBy.FirstAggregates` | algebra/physical/GroupBy.cpp:106-111 | The first row of a group initialises every aggregator to the fold of that row. |
| `GroupBy.NextAggregates` | algebra/physical/GroupBy.cpp:113-119 | A further row extends the fold of sum, average, count and minimum modulo the machine width, and is flagged, if nothing was flagged before, exactly when the extended fold does not fit; kept columns stay those of the first row. |
| `GroupBy.ResultIsOutput` | algebra/physical/GroupBy.cpp:190-203 | The output of a group is the wrapped fold of its rows; an average is flagged, if the fold fits, exactly when its shifted sum does not fit, and ends the query if its counter has wrapped to zero. |
| `GroupBy.OutputSummarises` | algebra/physical/GroupBy.cpp:190-203 | Where the folds fit, the output is the kept value, the sum, the count, the minimum, or the sum divided by the count, rounded toward zero. |
| `GroupBy.SummaryMeaning` | algebra/physical/GroupBy.cpp:106-252 | The values, aggregator by aggregator; an average times the number of rows differs from the sum by less than that number, with the sign of the sum. |
| `GroupBy.QuotientTruncates` | algebra/physical/GroupBy.cpp:190-203 | The quotient is rounded toward zero: the remainder is smaller than the divisor and has the sign of the dividend. |
| `GroupBy.InitializeGroup` | algebra/physical/GroupBy.cpp:417-428 | A new group aggregates the one row. |
| `GroupBy.AggregateInto` | algebra/physical/GroupBy.cpp:430-441 | The entries are updated in place to aggregate one row more, modulo the machine width; the overflow flag is raised, if nothing overflowed before, exactly when some extended fold does not fit. |
| `GroupBy.GetResults` | algebra/physical/GroupBy.cpp:443-464 | One output value per aggregator for the rows of the group; the flag is raised, if the folds fit, exactly when an average does not. |
| `GroupBy.GroupBy.Consume` | algebra/physical/GroupBy.cpp:466-487 | Looks up or creates the group of the combined key hash and aggregates the row into it, also after an overflow; all other groups keep their rows. The sticky flag is up exactly when some row so far did not fit its group. |
| `GroupBy.GroupBy.Produce` | algebra/physical/GroupBy.cpp:350-363 | One output tuple per distinct key hash among the consumed rows, each the wrapped fold of the rows with that hash; the flag is down exactly when all rows and all averages fit, and then every tuple is the exact fold. The output stops early exactly when an average's counter is zero. |
| `GroupBy.SingleGroup.Consume` | algebra/physical/GroupBy.cpp:488-502 | Without kept columns all rows go to one group, with the same sticky flag. |
| `GroupBy.SingleGroup.Produce` | algebra/physical/GroupBy.cpp:364-384 | No output for an empty input, otherwise one tuple, the wrapped fold of all rows; exact when the flag is down. |
| `GroupBy.Aggregate` | algebra/physical/GroupBy.cpp:348-363 | From rows to output, for any traversal order of the key set: one tuple per distinct key hash, each the wrapped fold of its rows; the flag is down exactly when no addition and no average overflows on the way, and then every tuple is exact. |
| `GroupBy.OutputMeaning` | algebra/physical/GroupBy.cpp:348-363 | What the output says: one tuple for each combined hash that occurs among the rows, and in it one value for each aggregator. |
| `GroupBy.KeyHoldsColumns` | algebra/physical/GroupBy.cpp:401-415 | The key of a row holds its values in all columns of the key order, in that order. |
| `GroupBy.GroupsAgreeOnKept` | algebra/physical/GroupBy.cpp:401-415 | As far as equal combined hashes mean equal keys, two rows are in one group if and only if they agree on every kept column. |
| `GroupBy.LosslessHashSeparates` | algebra/physical/GroupBy.cpp:401-415 | Every key counts: with a lossless hash and combination, equal combined hashes mean equal keys. |
| `GroupBy.GroupSizesAddUp` | algebra/physical/GroupBy.cpp:466-487 | The groups partition the rows: their sizes add up to the number of rows. |
| `GroupBy.GroupsAreKeyGroupsIff` | algebra/physical/GroupBy.cpp:402-415 | The groups are those that a comparison of the keys would form if and only if equal combined hashes among the rows mean equal keys. |
| `GroupBy.EveryHashMergesGroups` | algebra/physical/GroupBy.cpp:402-415 | For every combined hash of 64 bits there are two rows with different keys of two 64-bit columns that share a group. |
| `GroupBy.CountsAddUp` | algebra/physical/GroupBy.cpp:230-252 | The counts of all output tuples add up to the number of rows consumed. |
| `GroupBy.ScaledQuotient` | algebra/physical/GroupBy.cpp:190-203 | Dividing the shifted sum by the shifted counter is dividing the sum by the number of rows. |
| `Calendar.MergeIsSum` | foundations/LegacyTypes.cpp:228-236 | For dates up to the year 10000 no 32-bit operation of the formula wraps around. |
| `Calendar.ConsecutiveDays` | foundations/LegacyTypes.cpp:228-236 | The next day of the calendar has the next day number. |
| `Calendar.SplitInvertsMerge` | foundations/LegacyTypes.cpp:228-251 | Splitting the day number of a real date of the years 0 to 9999 gives the date. |
| `Calendar.EveryDayHasADate` | foundations/LegacyTypes.cpp:228-251 | Every number between the first and the last of these dates splits into a real date whose number it is. |
| `Calendar.DayNumbersOrderAsDates` | foundations/LegacyTypes.cpp:228-236 | Dates are ordered as their day numbers, both ways. |
| `Calendar.YearLength` | foundations/LegacyTypes.cpp:235 | The formula gives a year ending with February 366 days exactly in leap years. |
| `Calendar.KnownDays` | foundations/LegacyTypes.cpp:228-236 | The day numbers are Julian day numbers, at four known dates. |
| `Calendar.SplitInvertsMergeTime` | foundations/LegacyTypes.cpp:222-226 | Splitting merged milliseconds of a day gives the time back. |
| `Calendar.MergeInvertsSplitTime` | foundations/LegacyTypes.cpp:427-434 | Merging a split millisecond of a day gives the millisecond back. |
| `Calendar.ConsecutiveTimes` | foundations/LegacyTypes.cpp:222-226 | Midnight has the number 0, and the next millisecond on the clock the next number, up to the last of the day. |
| `Calendar.TimeNumbersOrderAsTimes` | foundations/LegacyTypes.cpp:222-226 | Times are ordered by hour, minute, second and millisecond as their numbers are. |
| `DateText.TimestampsOrder` | foundations/LegacyTypes.cpp:218-226 | Timestamps are ordered by date and then by time. |
| `DateText.MidnightFollows` | foundations/LegacyTypes.cpp:218-226 | The first millisecond of a day follows the last of the day before. |
| `DecimalText.Trim` | foundations/LegacyTypes.cpp:266-268 | Cuts the text into spaces, a part without a space at either end, and spaces. |
| `DateText.ReadNumber` | foundations/LegacyTypes.cpp:271-279 | The digit loop reads a 32-bit unsigned number up to its separator or the allowed end, and rejects everything else. |
| `DateText.CastStringToDateValue` | foundations/LegacyTypes.cpp:261-305 | The loops of the date parser compute the parsing function that the following lemmas characterise on all texts. |
| `DateText.ParsesDateText` | foundations/LegacyTypes.cpp:261-305 | Spaces, three runs of digits with hyphens between them, and spaces: accepted if and only if the low 32 bits of the three numbers are in range, and then giving the merged day number. |
| `DateText.AcceptedDates` | foundations/LegacyTypes.cpp:261-305 | No other text is accepted as a date. |
| `DateText.CastStringToTimestampValue` | foundations/LegacyTypes.cpp:318-414 | The loops of the timestamp parser compute the parsing function that the following lemmas characterise on all texts. |
| `DateText.ParsesStampText` | foundations/LegacyTypes.cpp:318-414 | A date, one space, a time with optional milliseconds, between spaces: accepted if and only if the low 32 bits of all numbers are in range, and then giving the timestamp. |
| `DateText.AcceptedTimestamps` | foundations/LegacyTypes.cpp:318-414 | No other text is accepted as a timestamp. |
| `DateText.ReadsRun` | foundations/LegacyTypes.cpp:271-279 | A run of digits, up to its separator or the end, is read as the low 32 bits of the number it denotes. |
| `DateText.ParsePrinted` | foundations/LegacyTypes.cpp:261-305 | Year, month and day printed in the date format are accepted if and only if they pass the range check, and give the merged day number. |
| `DateText.DateStringIsInjective` | foundations/LegacyTypes.cpp:253-259 | Different dates print differently. |
| `DateText.DateStringIs` | foundations/LegacyTypes.cpp:253-259 | A printed date, character by character. |
| `DateText.TimeStringIs` | foundations/LegacyTypes.cpp:435-446 | A printed time, character by character: no leading zero of the hour, and milliseconds only if there are any. |
| `DateText.DateRoundTrip` | foundations/LegacyTypes.cpp:253-305 | Parsing a printed date returns the raw value, for every day of the years 0 to 9999. |
| `DateText.PrintsBackIffRealDate` | foundations/LegacyTypes.cpp:253-305 | An accepted text prints back unchanged if and only if it is the printed form of a real date. |
| `DateText.ShortDatePrintsLonger` | foundations/LegacyTypes.cpp:261-305 | The text 2020-1-1 is accepted as the first of January 2020 and prints back differently. |
| `DateText.FebruaryIsAcceptedTo31` | foundations/LegacyTypes.cpp:300-304 | The 31st of February is accepted in every year up to 9999, and prints back as the second or third of March. |
| `DateText.LargeYearIsAccepted` | foundations/LegacyTypes.cpp:273-275 | The year 4294969316 is accepted as the year 2020. |
| `DateText.TimestampRoundTrip` | foundations/LegacyTypes.cpp:318-446 | Parsing a printed timestamp returns the raw value, for every millisecond of the years 0 to 9999, printed with or without milliseconds. |
| `NumericText.PrintNumeric` | foundations/LegacyTypes.cpp:192-218 | Prints sign, integer part and exactly as many digits of fraction as the precision says. |
| `NumericText.NativeToString` | native/sql/SqlValues.cpp:1358-1374 | The native printer prints the same text, although its loop treats a zero fraction differently. |
| `NumericText.CastStringToNumericValue` | foundations/LegacyTypes.cpp:123-179 | The loops of the numeric parser compute the parsing function that the following lemmas characterise on all texts. |
| `NumericText.ParsesNumericText` | foundations/LegacyTypes.cpp:123-179 | Spaces, an optional sign, digits, an optional point and digits, spaces: accepted if and only if at most 18 digits stand before the point and at most the precision behind it, trailing zeros aside; the result is the denoted number modulo 2^64. |
| `NumericText.AcceptedNumerics` | foundations/LegacyTypes.cpp:123-179 | No other text is accepted as a numeric. |
| `NumericText.DenotedIsReal` | foundations/LegacyTypes.cpp:150-179 | The denoted number is the decimal fraction that the text shows, times ten to the precision. |
| `NumericText.PlusIsAccepted` | foundations/LegacyTypes.cpp:123-179 | A text with spaces, a plus sign and a trailing zero, and its value. |
| `NumericText.ExactIff` | foundations/LegacyTypes.cpp:150-179 | An accepted number keeps its value if and only if the scaled number fits into 64 bits. |
| `NumericText.ShortNumbersAreExact` | foundations/LegacyTypes.cpp:150-179 | It does if the digits before the point and the precision add up to at most 18. |
| `NumericText.TooLargeIsAccepted` | foundations/LegacyTypes.cpp:150-179 | The text 99999999999999999.999 with precision 3 is accepted and read as another number. |
| `NumericText.PrintableUpTo17` | foundations/LegacyTypes.cpp:199-215 | Up to precision 17 no intermediate result of the printers overflows. |
| `NumericText.PrintedMeaning` | foundations/LegacyTypes.cpp:192-218 | The printed digits: a minus exactly for negative numbers, no needless leading zero, exactly as many digits behind the point as the precision, and together the number. |
| `NumericText.ScansRun` | foundations/LegacyTypes.cpp:150-159 | A run of digits is appended to the accumulator modulo 2^64, however often it wraps. |
| `NumericText.DropZerosStrips` | foundations/LegacyTypes.cpp:160-164 | The loop moves the end of the text so that the fraction is left without its trailing zeros. |
| `NumericText.NumericRoundTrip` | foundations/LegacyTypes.cpp:123-218 | Parsing printed text returns the raw value if and only if there is a fraction or the number has at most 18 digits; otherwise the text is rejected. |
| `FixedPoint.ProductPrecision` | sql/SqlOperators.cpp:268-298 | The product of numerics has the sum of the precisions, cut off at 18, and is a valid type. |
| `FixedPoint.InferredTypes` | sql/SqlOperators.cpp:133-167 | Numbers always have a result type; it is integer only for two integers. |
| `FixedPoint.BuiltType` | algebra/logical/expressions.hpp:157-273 | The digits of a whole expression: the larger number for sums, the sum cut off at 18 for products, where an integer counts like the numeric that it is multiplied with. |
| `FixedPoint.MakeBinaryKeepsMeaning` | algebra/logical/expressions.hpp:157-273 | The constructors never throw on numbers; the casts they insert give both operands the same kind of type and do not change the meaning. |
| `FixedPoint.ExpressionTranslator.Visit` | algebra/translation.cpp:28-190 | The visit of a tree pushes exactly its translation and leaves the rest of the stack alone. |
| `FixedPoint.ExpressionTranslator.constructor` | algebra/translation.cpp:23-26 | Afterwards the stack holds exactly the translation of the root. |
| `FixedPoint.SumIsExact` | sql/SqlOperators.cpp:89-109 | Addition and subtraction with rescaling yield the exact value, and are flagged exactly when an operand or the result does not fit. |
| `FixedPoint.ProductIsExact` | sql/SqlOperators.cpp:237-245 | Multiplication yields the exact value, and is flagged exactly when it does not fit. |
| `FixedPoint.IntegerOpIsExact` | sql/SqlOperators.cpp:82-87 | 32-bit operations are exact, and are flagged exactly when the result does not fit. |
| `FixedPoint.FlaggedIff` | sql/SqlOperators.cpp:82-109 | An operation is flagged exactly when the result, or an operand shifted to the digits of the other, does not fit; in raw values. |
| `FixedPoint.CastIsExactIff` | sql/SqlOperators.cpp:464-482 | A cast from integer is exact if and only if the shifted value fits; it is never flagged. |
| `FixedPoint.EveryIntegerCastsIff` | sql/SqlOperators.cpp:472-478 | All 32-bit integers can be cast exactly if and only if the precision is at most 9. |
| `FixedPoint.ProductMeansProductIff` | sql/SqlOperators.cpp:278-290 | A product that is not flagged means the product if and only if the precisions add up to at most 18 or the product is zero. |
| `FixedPoint.MislabelledProduct` | sql/SqlOperators.cpp:278-290 | Two values numeric(18,10) of raw 1 multiply, without a flag, to a value labelled with 18 digits that is not the product. |
| `FixedPoint.BuildKeepsMeaning` | algebra/logical/expressions.hpp:157-273 | Building the typed tree from a query expression keeps its exact value. |
| `FixedPoint.ExactMeaning` | algebra/logical/expressions.hpp:157-273 | What the exact value of an expression is: the raw values scaled by their digits, added, subtracted and multiplied. |
| `FixedPoint.EvaluateIsExact` | algebra/physical/expressions.hpp:158-206 | Every subtree overflows exactly when its exact computation does not fit, and otherwise has its static type and represents the exact value, if and only if every integer that is cast fits the new type and every product of more than 18 digits is zero or too large. |
| `FixedPoint.EnoughDigitsSuffice` | algebra/physical/expressions.hpp:158-206 | For all values, whenever casts go to at most 9 digits and no product needs more than 18. |
| `FixedPoint.CompilationPreservesMeaning` | algebra/translation.cpp:21-200 | From query expression to raw result: unless an overflow is flagged, the raw result is the exact rational value times ten to the inferred precision. |
| `CompiledExpressions.CompiledIsRaw` | algebra/translation.cpp:28-190 | The expression that a pipeline evaluates on raw values computes the raw value of the typed tree, unless that overflows. |
| `CompiledExpressions.CompiledIsExact` | algebra/translation.cpp:21-200 | From a query expression to a value in the pipeline: the exact rational value times ten to the inferred precision, if nothing overflows and the digits suffice. |

## Left out

- Database.Database.CreateTable: requires a bitmap column for every branch; with more than eight branches `createTable` throws half-way, as `Table.CreateBranch` states.
- Database.Database.Execute: runs end where a bitmap is full, because `BitmapTable::resize` throws and leaves a column counted that does not exist; branch ids stay below the invalid id 2^32 - 1.
- VersionedTable.Table.ProduceLatestTuple: the context must hold the lineage and bitset that constructBranchLineage computed, as in a query; `Database.ProduceLatestTuple` computes them.
- OptimisticLock.RunInv: upgrades use versions that were read without a restart; `writeLockOrRestart`, which ignores the restart flag, is not modelled.
- HashJoins.HashJoin.BuildTable: requires a non-empty build input; the size of the table is computed from the logarithm of the length, which the code does not define for 0.
- Hashtable.Hashtable.constructor: the floating-point size computation is replaced by a search for the least sufficient power of two, and masking by the remainder.
- Pipeline.Produce: rows are handed from operator to operator as sequences in the order of the calls of consume; the generated control flow is not modelled.
- Queries.BuildTree: the tables are scanned before the operators run, not while; nothing is written in between.
- GroupBy.GroupBy.Consume: the payload behind a hash table node is an array found through a map from nodes, instead of memory that follows the node.
- GroupBy.GroupBy.Produce: the quotient of the smallest 64-bit integer and -1, possible only after an overflow, is given as 2^63, where the machine division traps.
- FixedPoint.Evaluate: only casts from integers, which is what the constructors insert; numeric casts, division and comparison are left out.
- NumericText.PrintNumeric: requires that negation and the products with ten do not overflow, which C++ leaves undefined; this excludes the smallest 64-bit integer and some values of precision 18.
- NumericText.CastStringToNumericValue: the signed accumulator wraps modulo 2^64 where it overflows, which C++ leaves undefined.
- LogicalOperators.Operator.UpdateRequiredSets: a parent passes its required set and arity down instead of being reached through a pointer, and the flags that delay the traversals are not modelled.
- LLVM code generation, type caches and the execution engine: the loops and branches they generate are modelled directly.
- Tuples in columns: the columns of a table are one sequence of tuples, and tuple values are integers; null indicators and strings are not modelled.
- Dangling tuple ids, `merge_tuple` and `get_chain_element` with an offset: never filled, only declared, or looping forever.
- Loading tables from files, which adds rows without versions.
- The construction of the join order and `verifyDependencies`: trees are given; the latter tests a join's whole required set against each child.
- Three-valued logic, and logical operators inside `collectRequired`.
- Avg with a type other than numeric adds a cast that is not modelled; its expression is numeric here.
- Parsing SQL and schemas, the server, the prompts and the benchmarks.
