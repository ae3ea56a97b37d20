/** The version chain of one tuple: a linked structure of storage nodes with the mutable entry that
    stands for the current master version somewhere in its middle. */
module VersionChain {
  import opened Wrappers
  import opened Lineage
  import opened VersionLog

  /** The part of the execution context that decides what a query reads. */
  class ExecutionContext {
    var branchId: nat
    var branchLineage: map<nat, nat>
    var branchLineages: map<nat, map<nat, nat>>
    var branchLineageBitset: seq<bool>

    constructor ()
      ensures branchId == MASTER_BRANCH && branchLineage == map[] && branchLineages == map[]
      ensures branchLineageBitset == []
    {
      branchId, branchLineage, branchLineages, branchLineageBitset := MASTER_BRANCH, map[], map[], [];
    }
  }

  class VersionedTupleStorage {
    var next: object?
    var nextInBranch: object?
    var branchId: nat
    var creationTs: nat
    var data: Tuple
    /** The place of the version in the tuple's log. */
    ghost const age: nat
    /** The place of the version that `nextInBranch` leads to, unless it leads to the entry. */
    ghost const linkAge: nat
    /** Whether the node is a former master version. */
    ghost const wasMaster: bool

    constructor (branchId: nat, creationTs: nat, data: Tuple, next: object?, nextInBranch: object?,
                 ghost age: nat, ghost linkAge: nat, ghost wasMaster: bool)
      ensures this.branchId == branchId && this.creationTs == creationTs && this.data == data
      ensures this.next == next && this.nextInBranch == nextInBranch
      ensures this.age == age && this.linkAge == linkAge && this.wasMaster == wasMaster
    {
      this.branchId, this.creationTs, this.data := branchId, creationTs, data;
      this.next, this.nextInBranch := next, nextInBranch;
      this.age, this.linkAge, this.wasMaster := age, linkAge, wasMaster;
    }
  }

  /** The entry's own tuple value is kept by the table, in the columns. */
  class VersionEntry {
    var first: object?
    var prev: object?
    var next: object?
    var nextInBranch: object?
    var branchId: nat
    var creationTs: nat
    var branchVisibility: seq<bool>

    /** Every version ever written, oldest first; version `pos` is the one the entry stands for. */
    ghost var log: seq<Version>
    ghost var pos: nat
    /** The node that holds version k; null for the entry's version. */
    ghost var nodes: seq<VersionedTupleStorage?>
    ghost var linkAge: nat

    /** Every storage node ever allocated for the tuple. */
    ghost var storages: set<VersionedTupleStorage>

    /** The chain element that holds version k-1, or null when there is no older one. */
    ghost function Below(k: nat): object?
      reads this
      requires k <= |nodes|
    {
      if k == 0 then null else if k - 1 == pos then this else nodes[k - 1]
    }

    ghost predicate Valid()
      reads this, storages
    {
      && ValidNodes()
      && ValidLinks()
      && ValidHistory()
    }

    ghost predicate ValidNodes()
      reads this, storages
    {
      && |log| == |nodes|
      && pos < |log|
      && nodes[pos] == null
      && (forall n | n in storages :: n.age < |nodes| && nodes[n.age] == n)
      && log[pos].branch == branchId && log[pos].ts == creationTs
      && forall k | 0 <= k < |nodes| && k != pos ::
           && nodes[k] in storages
           && nodes[k].age == k
           && log[k] == Version(nodes[k].branchId, nodes[k].creationTs, nodes[k].data)
    }

    /** The chain leads from the newest version to the oldest, and `prev` to the entry's
        predecessor, if it has one. */
    ghost predicate ValidLinks()
      reads this, storages
      requires ValidNodes()
    {
      && first == Below(|nodes|)
      && next == Below(pos)
      && (forall k {:trigger nodes[k].next} | 0 <= k < |nodes| && k != pos :: nodes[k].next == Below(k))
      && (pos + 1 < |nodes| ==> prev == nodes[pos + 1])
    }

    /** `nextInBranch` leads from the entry through former master versions to the version that was
        inserted first; from every other node it leads to the entry or to an older node. */
    ghost predicate ValidHistory()
      reads this, storages
      requires ValidNodes()
    {
      && (if pos == 0 then nextInBranch == null
          else linkAge < pos && nodes[linkAge].wasMaster && nextInBranch == nodes[linkAge])
      && forall k {:trigger ValidBranchLink(nodes[k])} | 0 <= k < |nodes| && k != pos :: ValidBranchLink(nodes[k])
    }

    ghost predicate ValidBranchLink(n: VersionedTupleStorage)
      reads this, n, storages
      requires ValidNodes() && n.age < |nodes|
    {
      var link := n.linkAge;
      if n.age == 0 then n.wasMaster && n.nextInBranch == null
      else if n.wasMaster then
        link < n.age && link != pos && nodes[link].wasMaster && n.nextInBranch == nodes[link]
      else
        n.nextInBranch == this || (link < n.age && link != pos && n.nextInBranch == nodes[link])
    }

    constructor (branch: nat, largestBranchId: nat, ghost value: Tuple)
      requires branch <= largestBranchId
      ensures Valid() && storages == {} && pos == 0
      ensures log == [Version(branch, largestBranchId, value)]
      ensures branchVisibility == seq(1 + largestBranchId, i => i == branch)
    {
      first, prev, next, nextInBranch := this, null, null, null;
      branchId := branch;
      branchVisibility := seq(1 + largestBranchId, _ => false)[branch := true];
      creationTs := largestBranchId;
      log, pos, nodes, linkAge := [Version(branch, largestBranchId, value)], 0, [null], 0;
      storages := {};
    }

    /** The master branch of update_tuple: the old master version moves to a storage node at the
        entry's place and the entry moves to the head of the chain. */
    method PushMaster(oldTuple: Tuple, largestBranchId: nat, ghost tuple: Tuple)
      requires Valid() && oldTuple == log[pos].value
      modifies this, storages
      ensures Valid() && old(storages) <= storages && fresh(storages - old(storages))
      ensures log == old(log) + [Version(MASTER_BRANCH, largestBranchId, tuple)]
      ensures pos == |old(log)| && branchVisibility == old(branchVisibility)
    {
      var storage := SpliceCopy(oldTuple);
      MoveToHead(storage, largestBranchId, tuple);
      PushedMasterIsValid(storage);
    }

    /** Puts the entry at the head of the chain, as the new master version. */
    method MoveToHead(storage: VersionedTupleStorage, largestBranchId: nat, ghost tuple: Tuple)
      requires pos < |nodes| && |nodes| == |log|
      modifies this
      ensures first == this && nextInBranch == storage && prev == old(prev)
      ensures next == if old(first) == this then storage else old(first)
      ensures branchId == MASTER_BRANCH && creationTs == largestBranchId
      ensures branchVisibility == old(branchVisibility)
      ensures nodes == old(nodes)[old(pos) := storage] + [null] && pos == |old(nodes)| && linkAge == old(pos)
      ensures storages == old(storages) + {storage}
      ensures log == old(log) + [Version(MASTER_BRANCH, largestBranchId, tuple)]
    {
      if first != this {
        next := first;
      } else {
        next := storage;
      }
      nextInBranch := storage;
      first := this;
      branchId := MASTER_BRANCH;
      creationTs := largestBranchId;

      linkAge := pos;
      storages := storages + {storage};
      nodes := nodes[pos := storage] + [null];
      pos := |log|;
      log := log + [Version(MASTER_BRANCH, largestBranchId, tuple)];
    }

    /** Copies the current master version to a new storage node and links it behind the entry's
        predecessor. */
    method SpliceCopy(oldTuple: Tuple) returns (storage: VersionedTupleStorage)
      requires Valid()
      modifies storages
      ensures fresh(storage) && unchanged(this)
      ensures storage.branchId == branchId && storage.creationTs == creationTs && storage.data == oldTuple
      ensures storage.next == next && storage.nextInBranch == nextInBranch
      ensures storage.age == pos && storage.linkAge == linkAge && storage.wasMaster
      ensures forall k | 0 <= k < |nodes| && k != pos :: SameVersion(nodes[k])
      ensures forall k {:trigger nodes[k].nextInBranch} | 0 <= k < |nodes| && k != pos ::
                nodes[k].nextInBranch == old(nodes[k].nextInBranch)
      ensures forall k {:trigger nodes[k].next} | 0 <= k < |nodes| && k != pos ::
                nodes[k].next == if k == pos + 1 then storage else old(nodes[k].next)
    {
      HeadAndPrev();
      storage := new VersionedTupleStorage(
        branchId, creationTs, oldTuple, next, nextInBranch, pos, linkAge, true);
      if first != this {
        (prev as VersionedTupleStorage).next := storage;
      }
    }

    static twostate predicate SameVersion(n: VersionedTupleStorage)
      reads n
    {
      n.branchId == old(n.branchId) && n.creationTs == old(n.creationTs) && n.data == old(n.data)
    }

    lemma HeadAndPrev()
      requires Valid()
      ensures first == this <==> pos + 1 == |nodes|
      ensures first != this ==> pos + 1 < |nodes| && prev == nodes[pos + 1] && prev in storages
      ensures next != this
    {}

    /** What PushMaster writes, field by field. */
    twostate predicate PushedMaster(new storage: VersionedTupleStorage)
      reads this, storage, nodes
    {
      && old(Valid())
      && nodes == old(nodes)[old(pos) := storage] + [null]
      && storages == old(storages) + {storage}
      && pos == |old(log)| && linkAge == old(pos)
      && |log| == |old(log)| + 1 && (forall k | 0 <= k < pos :: log[k] == old(log)[k])
      && log[pos].branch == branchId && log[pos].ts == creationTs
      && first == this && nextInBranch == storage
      && next == (if old(pos) + 1 == |old(nodes)| then storage else old(first))
      && old(log)[old(pos)] == Version(storage.branchId, storage.creationTs, storage.data)
      && storage.next == old(next) && storage.nextInBranch == old(nextInBranch)
      && storage.age == old(pos) && storage.linkAge == old(linkAge) && storage.wasMaster
      && ChainKept(storage)
    }

    /** All other nodes keep their version and their links, except that one is relinked to `storage`. */
    twostate predicate ChainKept(new storage: VersionedTupleStorage)
      requires old(Valid()) && nodes == old(nodes)[old(pos) := storage] + [null]
      reads this, nodes
    {
      && (forall k | 0 <= k < |old(nodes)| && k != old(pos) :: SameVersion(nodes[k]))
      && (forall k {:trigger nodes[k].nextInBranch} | 0 <= k < |old(nodes)| && k != old(pos) ::
            nodes[k].nextInBranch == old(nodes[k].nextInBranch))
      && (forall k {:trigger nodes[k].next} | 0 <= k < |old(nodes)| && k != old(pos) ::
            nodes[k].next == if k == old(pos) + 1 then storage else old(nodes[k].next))
    }

    twostate lemma PushedMasterIsValid(new storage: VersionedTupleStorage)
      requires PushedMaster(storage)
      ensures Valid()
    {
      PushedMasterNodes(storage);
      PushedMasterLinks(storage);
      PushedMasterHistory(storage);
    }

    twostate lemma PushedMasterNodes(new storage: VersionedTupleStorage)
      requires PushedMaster(storage)
      ensures ValidNodes()
    {}

    twostate lemma PushedMasterLinks(new storage: VersionedTupleStorage)
      requires PushedMaster(storage) && ValidNodes()
      ensures ValidLinks()
    {}

    twostate lemma PushedMasterHistory(new storage: VersionedTupleStorage)
      requires PushedMaster(storage) && ValidNodes()
      ensures ValidHistory()
    {
      forall k | 0 <= k < |nodes| && k != pos ensures ValidBranchLink(nodes[k]) {
        if k != old(pos) {
          assert old(ValidBranchLink(nodes[k]));
        }
      }
    }

    /** The other branches of update_tuple: a new storage node becomes the head of the chain. */
    method PushBranch(tuple: Tuple, branch: nat, largestBranchId: nat, predecessor: object, ghost link: nat)
      requires Valid() && branch <= largestBranchId
      requires link < |nodes| && predecessor == Below(link + 1)
      modifies this
      ensures Valid() && old(storages) <= storages && fresh(storages - old(storages))
      ensures log == old(log) + [Version(branch, largestBranchId, tuple)]
      ensures pos == old(pos) < |old(log)|
      ensures branchVisibility == Grown(old(branchVisibility), 1 + largestBranchId)[branch := true]
    {
      hide Grown, ValidLinks, ValidHistory;
      MarkWriter(branch, largestBranchId);
      var storage := new VersionedTupleStorage(
        branch, largestBranchId, tuple, first, predecessor, |nodes|, link, false);
      LinkAtHead(storage, tuple);
      PushedBranchIsValid(storage);
    }

    method MarkWriter(branch: nat, largestBranchId: nat)
      requires branch <= largestBranchId
      modifies this`branchVisibility
      ensures branchVisibility == Grown(old(branchVisibility), 1 + largestBranchId)[branch := true]
    {
      var branchCnt := 1 + largestBranchId;
      if |branchVisibility| < branchCnt {
        branchVisibility := branchVisibility + seq(branchCnt - |branchVisibility|, _ => false);
      }
      branchVisibility := branchVisibility[branch := true];
    }

    method LinkAtHead(storage: VersionedTupleStorage, ghost tuple: Tuple)
      modifies this`prev, this`first, this`storages, this`nodes, this`log
      ensures prev == if old(first) == this then storage else old(prev)
      ensures first == storage
      ensures storages == old(storages) + {storage} && nodes == old(nodes) + [storage]
      ensures log == old(log) + [Version(storage.branchId, storage.creationTs, tuple)]
    {
      if first == this { prev := storage; }
      first := storage;

      storages := storages + {storage};
      nodes := nodes + [storage];
      log := log + [Version(storage.branchId, storage.creationTs, tuple)];
    }

    /** What PushBranch writes; no other node changes. */
    twostate predicate PushedBranch(new storage: VersionedTupleStorage)
      reads this, storage, storages
    {
      && old(Valid())
      && nodes == old(nodes) + [storage] && storages == old(storages) + {storage}
      && pos == old(pos) && linkAge == old(linkAge)
      && log == old(log) + [Version(storage.branchId, storage.creationTs, storage.data)]
      && first == storage && next == old(next) && nextInBranch == old(nextInBranch)
      && branchId == old(branchId) && creationTs == old(creationTs)
      && prev == (if old(first) == this then storage else old(prev))
      && storage.next == old(first) && storage.age == |old(nodes)| && !storage.wasMaster
      && (storage.nextInBranch == this
          || (storage.linkAge < storage.age && storage.linkAge != pos
              && storage.nextInBranch == nodes[storage.linkAge]))
      && (forall n | n in old(storages) :: unchanged(n))
    }

    twostate lemma PushedBranchIsValid(new storage: VersionedTupleStorage)
      requires PushedBranch(storage)
      ensures Valid()
    {
      PushedBranchNodes(storage);
      PushedBranchLinks(storage);
      PushedBranchHistory(storage);
    }

    twostate lemma PushedBranchNodes(new storage: VersionedTupleStorage)
      requires PushedBranch(storage)
      ensures ValidNodes()
    {}

    twostate lemma PushedBranchLinks(new storage: VersionedTupleStorage)
      requires PushedBranch(storage) && ValidNodes()
      ensures ValidLinks()
    {}

    twostate lemma PushedBranchHistory(new storage: VersionedTupleStorage)
      requires PushedBranch(storage) && ValidNodes()
      ensures ValidHistory()
    {
      forall k | 0 <= k < |nodes| && k != pos ensures ValidBranchLink(nodes[k]) {
        if k < |old(nodes)| {
          assert old(ValidBranchLink(nodes[k]));
        }
      }
    }

    // ----- reading

    /** The age of the version that is read in the context: master reads the entry. */
    ghost function LatestAge(ctx: ExecutionContext): (age: int)
      reads this, storages, ctx
      requires Valid()
      ensures -1 <= age < |nodes|
    {
      if ctx.branchId == MASTER_BRANCH then pos else NewestVisible(log, ctx.branchId, ctx.branchLineage)
    }

    /** The chain element that holds the version to be read, or null. */
    method GetLatestChainElement(ctx: ExecutionContext) returns (element: object?, ghost age: int)
      requires Valid()
      ensures element == if LatestAge(ctx) == -1 then null else Below(LatestAge(ctx) + 1)
      ensures age == LatestAge(ctx)
    {
      if ctx.branchId == MASTER_BRANCH { return this, pos; }
      element, age := first, |nodes| - 1;
      while element != null
        invariant -1 <= age < |nodes| && element == Below(age + 1)
        invariant forall j | age < j < |log| :: !Visible(log[j], ctx.branchId, ctx.branchLineage)
        decreases age
      {
        if element == this {
          if IsVisible(branchId, creationTs, ctx) { return; }
          element := next;
        } else {
          var storage := element as VersionedTupleStorage;
          if IsVisible(storage.branchId, storage.creationTs, ctx) { return; }
          element := storage.next;
        }
        age := age - 1;
      }
    }

    /** Orders branch nodes before the entry before former master versions. */
    ghost function Rank(age: nat): nat
      reads this, storages
      requires Valid() && age < |nodes|
    {
      if age == pos || nodes[age].wasMaster then age else |nodes| + age
    }

    lemma LinkLowersRank(age: nat)
      requires Valid() && age < |nodes|
      ensures age == pos ==>
                if pos == 0 then nextInBranch == null
                else nextInBranch == Below(linkAge + 1) && Rank(linkAge) < Rank(age)
      ensures age != pos ==>
                var n := nodes[age];
                if age == 0 then n.nextInBranch == null
                else
                  var target := if n.nextInBranch == this then pos else n.linkAge;
                  target < |nodes| && n.nextInBranch == Below(target + 1) && Rank(target) < Rank(age)
    {
      if age != pos { assert ValidBranchLink(nodes[age]); }
    }

    /** Follows `nextInBranch` to its end: whatever version a branch reads, the walk stops at the
        version that was inserted first. */
    method GetEarliestChainElement(ctx: ExecutionContext) returns (element: object?)
      requires Valid()
      ensures element == null <==>
                ctx.branchId != MASTER_BRANCH && Resolve(log, ctx.branchId, ctx.branchLineage).None?
      ensures element != null ==> element == Below(1)
    {
      var latest, age := GetLatestChainElement(ctx);
      element := latest;
      var following: object? := element;
      while following != null
        invariant following != null ==> 0 <= age < |nodes| && following == Below(age + 1)
        invariant following == null ==> element == if latest == null then null else Below(1)
        invariant latest == null ==> following == null
        decreases if following == null then 0 else 1 + Rank(age)
      {
        element := following;
        following, age := NextInBranch(element, age);
      }
    }

    method NextInBranch(element: object, ghost age: nat) returns (following: object?, ghost nextAge: int)
      requires Valid() && age < |nodes| && element == Below(age + 1)
      ensures following == null <==> age == 0
      ensures following != null ==>
                0 <= nextAge < |nodes| && following == Below(nextAge + 1) && Rank(nextAge) < Rank(age)
    {
      LinkLowersRank(age);
      if element == this {
        return nextInBranch, linkAge;
      }
      var storage := element as VersionedTupleStorage;
      return storage.nextInBranch, if storage.nextInBranch == this then pos else storage.linkAge;
    }

    /** Frees every storage node of the tuple, each once, and leaves the entry on its own. */
    method DestroyChain() returns (freed: seq<VersionedTupleStorage>)
      requires Valid()
      modifies this
      ensures forall n :: n in freed <==> n in old(storages)
      ensures forall i, j | 0 <= i < j < |freed| :: freed[i] != freed[j]
      ensures Valid() && storages == {} && log == old([log[pos]])
    {
      freed := FreeStorages();
      Isolate();
    }

    method Isolate()
      requires Valid()
      modifies this
      ensures Valid() && storages == {} && log == old([log[pos]])
    {
      first := this;
      next := null;
      nextInBranch := null;
      log, pos, nodes, linkAge, storages := [log[pos]], 0, [null], 0, {};
    }

    method FreeStorages() returns (freed: seq<VersionedTupleStorage>)
      requires Valid()
      ensures forall n :: n in freed <==> n in storages
      ensures forall i, j | 0 <= i < j < |freed| :: freed[i] != freed[j]
    {
      freed := [];
      var element: object? := first;
      ghost var k := |nodes|;
      while element != null
        invariant 0 <= k <= |nodes| && element == Below(k)
        invariant forall n | n in freed :: n in storages && k <= n.age
        invariant forall n | n in storages && k <= n.age :: n in freed
        invariant forall i, j | 0 <= i < j < |freed| :: freed[j].age < freed[i].age
        decreases k
      {
        k := k - 1;
        if element == this {
          element := next;
        } else {
          var storage := element as VersionedTupleStorage;
          element := storage.next;
          freed := freed + [storage];
        }
      }
    }
  }

  function IsVisible(branchId: nat, creationTs: nat, ctx: ExecutionContext): bool
    reads ctx
  {
    if branchId == ctx.branchId then true
    else branchId in ctx.branchLineage && creationTs < ctx.branchLineage[branchId]
  }
}
