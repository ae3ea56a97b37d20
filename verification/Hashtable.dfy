/** The growing hash table: buckets of linked nodes in which nodes with equal hash codes are
    neighbours.  A table size is a power of two, so masking a hash code is taking it modulo the size. */
module Hashtable {
  import opened Buckets

  class Node {
    var next: Node?
    const hashCode: nat

    constructor (hashCode: nat)
      ensures this.hashCode == hashCode && next == null
    {
      this.hashCode := hashCode;
      next := null;
    }
  }

  // ----- sequences of nodes

  ghost predicate Linked(head: Node?, s: seq<Node>)
    reads s
  {
    && head == (if s == [] then null else s[0])
    && forall k {:trigger s[k].next} | 0 <= k < |s| :: s[k].next == if k + 1 < |s| then s[k + 1] else null
  }

  /** Nodes with equal hash codes are neighbours. */
  ghost predicate Grouped(s: seq<Node>)
  {
    forall j, k, l | 0 <= j < k < l < |s| && s[j].hashCode == s[l].hashCode :: s[k].hashCode == s[j].hashCode
  }

  ghost function Inserted(s: seq<Node>, k: nat, n: Node): seq<Node>
    requires k <= |s|
  {
    s[..k] + [n] + s[k..]
  }

  /** `k` is the place of the first node with hash code `h`, or the end. */
  ghost predicate IsPlace(s: seq<Node>, h: nat, k: nat)
  {
    && k <= |s|
    && (forall j | 0 <= j < k :: s[j].hashCode != h)
    && (k < |s| ==> s[k].hashCode == h)
  }

  /** The place of the first node with hash code `h`, or the end. */
  ghost function PlaceOf(s: seq<Node>, h: nat): (k: nat)
    ensures IsPlace(s, h, k)
  {
    if s == [] || s[0].hashCode == h then 0 else
      var k := PlaceOf(s[1..], h);
      assert forall j | 1 <= j < k + 1 :: s[j] == s[1..][j - 1];
      k + 1
  }

  lemma InsertedIsGrouped(s: seq<Node>, k: nat, n: Node)
    requires Distinct(s) && Grouped(s) && n !in s && IsPlace(s, n.hashCode, k)
    ensures Distinct(Inserted(s, k, n)) && Grouped(Inserted(s, k, n))
  {
    var t := Inserted(s, k, n);
    forall a, b, c | 0 <= a < b < c < |t| && t[a].hashCode == t[c].hashCode ensures t[b].hashCode == t[a].hashCode {
      if k < c {
        var a', b' := (if a <= k then a else a - 1), (if b <= k then b else b - 1);
        assert t[c] == s[c - 1] && s[k].hashCode == n.hashCode;
        assert t[a].hashCode == s[a'].hashCode && t[b].hashCode == s[b'].hashCode;
      }
    }
  }

  lemma InsertedHas(s: seq<Node>, k: nat, n: Node)
    requires k <= |s|
    ensures forall m :: m in Inserted(s, k, n) <==> m in s || m == n
  {
    assert s == s[..k] + s[k..];
  }

  /** Writing the two links around the new node links it into the list. */
  lemma InsertedIsLinked(s: seq<Node>, k: nat, n: Node, head: Node?)
    requires k <= |s|
    requires forall j {:trigger s[j].next} | 0 <= j < |s| ::
               s[j].next == if j + 1 == k then n else if j + 1 < |s| then s[j + 1] else null
    requires n.next == if k < |s| then s[k] else null
    requires head == if k == 0 then n else s[0]
    ensures Linked(head, Inserted(s, k, n))
  {}

  // ----- sizes

  /** Three quarters of the table size, rounded down. */
  function Threshold(size: nat): nat
  {
    3 * size / 4
  }

  /** How often a table must double until `unique` hash codes stay below the threshold. */
  ghost function Doublings(size: nat, unique: nat): nat
    requires size >= 1
    decreases if Threshold(size) > unique then 0 else 2 * unique + 2 - size
  {
    if Threshold(size) > unique then 0 else 1 + Doublings(2 * size, unique)
  }

  /** A table that reached its threshold doubles once, except a table of size one: there the first
      insertion rehashes, and reinserting the node rehashes again. */
  lemma OneDoublingIsEnough(size: nat)
    requires size >= 1
    ensures Doublings(size, if size == 1 then 1 else Threshold(size)) == if size == 1 then 2 else 1
  {
    if size == 1 {
      assert Doublings(2, 1) == 1 + Doublings(4, 1);
    }
  }

  ghost function HashesOf(nodes: set<Node>): set<nat>
  {
    set n | n in nodes :: n.hashCode
  }

  lemma SubsetIsSmaller<T>(a: set<T>, b: set<T>)
    requires a <= b
    ensures |a| <= |b|
  {
    if a != {} {
      var x :| x in a;
      SubsetIsSmaller(a - {x}, b - {x});
    }
  }

  class Hashtable {
    var table: array<Node?>
    var tableSize: nat
    var uniqueCount: nat
    var uniqueCountThreshold: nat
    ghost var buckets: seq<seq<Node>>
    ghost var nodes: set<Node>

    function Hash(h: nat): nat
      reads this
      requires tableSize > 0
    {
      h % tableSize
    }

    ghost predicate ValidBucket(i: nat)
      reads this, table, nodes
      requires i < table.Length == |buckets| == tableSize
    {
      && (forall n | n in buckets[i] :: n in nodes && Hash(n.hashCode) == i)
      && Linked(table[i], buckets[i])
      && Distinct(buckets[i])
      && Grouped(buckets[i])
    }

    /** The buckets partition the nodes by hash code and the counters are right. */
    ghost predicate Shape()
      reads this, table, nodes
    {
      && PowerOfTwo(tableSize)
      && table.Length == |buckets| == tableSize > 0
      && uniqueCountThreshold == Threshold(tableSize)
      && (forall i {:trigger ValidBucket(i)} | 0 <= i < tableSize :: ValidBucket(i))
      && (forall n | n in nodes :: n in buckets[Hash(n.hashCode)])
      && uniqueCount == |HashesOf(nodes)|
    }

    /** A table of size one has threshold zero; it stays valid only while it is empty. */
    ghost predicate Valid()
      reads this, table, nodes
    {
      Shape() && (uniqueCount < uniqueCountThreshold || (tableSize == 1 && nodes == {}))
    }

    /** Which bucket a node is in, and that it is there once. */
    lemma BucketMeaning(i: nat, n: Node)
      requires Shape() && i < tableSize
      ensures n in buckets[i] <==> n in nodes && n.hashCode % tableSize == i
      ensures Distinct(buckets[i])
    {
      assert ValidBucket(i);
    }

    /** Walks the bucket to the first node with the same hash code, or to the end. */
    method FindPlace(h: nat) returns (prev: Node?, current: Node?, ghost k: nat)
      requires Shape()
      ensures var b, place := buckets[Hash(h)], PlaceOf(buckets[Hash(h)], h);
              && prev == (if place == 0 then null else b[place - 1])
              && current == (if place == |b| then null else b[place])
      ensures k == PlaceOf(buckets[Hash(h)], h)
    {
      hide PowerOfTwo, HashesOf, Grouped, PlaceOf;
      ghost var b := buckets[Hash(h)];
      assert ValidBucket(Hash(h));
      prev, current, k := null, table[Hash(h)], 0;
      while current != null
        invariant k <= |b| && (forall j | 0 <= j < k :: b[j].hashCode != h)
        invariant prev == (if k == 0 then null else b[k - 1])
        invariant current == (if k == |b| then null else b[k])
        decreases |b| - k
      {
        if current.hashCode == h { return; }
        prev, current, k := current, current.next, k + 1;
      }
    }

    /** The linking part of insert. */
    method Link(node: Node)
      requires Shape() && node !in nodes
      modifies this`uniqueCount, this`buckets, this`nodes, table, nodes, node
      ensures Shape() && nodes == old(nodes) + {node}
      ensures var i := old(Hash(node.hashCode));
              var b := old(buckets)[i];
              buckets == old(buckets)[i := Inserted(b, PlaceOf(b, node.hashCode), node)]
    {
      hide PowerOfTwo, Grouped, Linked, HashesOf, PlaceOf;
      var i := Hash(node.hashCode);
      var prev, current, k := FindPlace(node.hashCode);
      PlaceTellsHash(node.hashCode, k);
      assert ValidBucket(i);
      CountNode(current);
      WriteLinks(i, prev, node, current, buckets[i], k);
      RecordNode(i, node, k);
      BucketReplaced(i);
    }

    method CountNode(current: Node?)
      modifies this`uniqueCount
      ensures uniqueCount == old(uniqueCount) + if current == null then 1 else 0
    {
      uniqueCount := uniqueCount + 1;
      if current != null {
        uniqueCount := uniqueCount - 1;
      }
    }

    ghost method RecordNode(i: nat, node: Node, k: nat)
      requires i < |buckets| && IsPlace(buckets[i], node.hashCode, k) && node !in buckets[i]
      requires Distinct(buckets[i]) && Grouped(buckets[i])
      modifies this`buckets, this`nodes
      ensures nodes == old(nodes) + {node}
      ensures |HashesOf(nodes)| == |HashesOf(old(nodes))| + if node.hashCode in HashesOf(old(nodes)) then 0 else 1
      ensures buckets == old(buckets)[i := Inserted(old(buckets)[i], k, node)]
      ensures forall n :: n in buckets[i] <==> n in old(buckets)[i] || n == node
      ensures Distinct(buckets[i]) && Grouped(buckets[i])
    {
      InsertedIsGrouped(buckets[i], k, node);
      InsertedHas(buckets[i], k, node);
      buckets := buckets[i := Inserted(buckets[i], k, node)];
      nodes := nodes + {node};
      ghost var hashes := HashesOf(old(nodes));
      assert HashesOf(nodes) == hashes + {node.hashCode};
      if node.hashCode in hashes {
        assert hashes + {node.hashCode} == hashes;
      }
    }

    /** Only bucket `i` was written to. */
    twostate lemma BucketReplaced(i: nat)
      requires old(Shape()) && unchanged(`table, `tableSize, `uniqueCountThreshold)
      requires i < tableSize && |buckets| == tableSize && ValidBucket(i)
      requires old(nodes) <= nodes
      requires forall j | 0 <= j < tableSize && j != i :: buckets[j] == old(buckets[j]) && table[j] == old(table[j])
      requires forall n | n in old(nodes) && Hash(n.hashCode) != i :: n.next == old(n.next)
      requires forall n | n in nodes :: n in buckets[Hash(n.hashCode)]
      requires uniqueCount == |HashesOf(nodes)|
      ensures Shape()
    {
      forall j | 0 <= j < tableSize ensures ValidBucket(j) {
        assert old(ValidBucket(j));
      }
    }

    /** There is a node with hash code `h` exactly when the walk stopped before the end. */
    lemma PlaceTellsHash(h: nat, k: nat)
      requires Shape() && IsPlace(buckets[Hash(h)], h, k)
      ensures h in HashesOf(nodes) <==> k < |buckets[Hash(h)]|
    {
      var b := buckets[Hash(h)];
      assert ValidBucket(Hash(h));
      if k < |b| {
        assert b[k] in nodes;
      }
    }

    method WriteLinks(i: nat, prev: Node?, node: Node, current: Node?, ghost b: seq<Node>, ghost k: nat)
      requires i < table.Length && k <= |b| && Linked(table[i], b) && Distinct(b) && node !in b
      requires prev == if k == 0 then null else b[k - 1]
      requires current == if k == |b| then null else b[k]
      modifies table, node, prev
      ensures Linked(table[i], Inserted(b, k, node))
      ensures forall j | 0 <= j < table.Length && j != i :: table[j] == old(table[j])
    {
      if prev == null {
        table[i] := node;
      } else {
        prev.next := node;
      }
      node.next := current;
      InsertedIsLinked(b, k, node, table[i]);
    }

    /** `bound` is an upper bound on the number of hash codes that the caller is going to insert; it
        limits how often insert and rehash can call each other. */
    method Insert(node: Node, ghost bound: nat)
      requires Valid() && node !in nodes && |HashesOf(nodes + {node})| <= bound
      modifies this, table, nodes, node
      ensures Valid() && nodes == old(nodes) + {node}
      ensures uniqueCount == |HashesOf(nodes)| < uniqueCountThreshold && 4 * uniqueCount < 3 * tableSize
      ensures table == old(table) || fresh(table)
      ensures 4 * (uniqueCount + 1) <= 3 * old(tableSize) ==> table == old(table) && tableSize == old(tableSize)
      ensures tableSize >= old(tableSize)
      ensures Doublings(tableSize, bound) <= old(Doublings(tableSize, bound))
      decreases Doublings(tableSize, bound), 1
    {
      Link(node);
      if uniqueCount >= uniqueCountThreshold {
        Rehash(bound);
      }
    }

    /** insert(h, size): allocates the node that is inserted. */
    method InsertNew(h: nat) returns (node: Node)
      requires Valid()
      modifies this, table, nodes
      ensures Valid() && fresh(node) && node.hashCode == h && nodes == old(nodes) + {node}
      ensures table == old(table) || fresh(table)
    {
      node := new Node(h);
      Insert(node, |HashesOf(nodes + {node})|);
    }

    method Rehash(ghost bound: nat)
      requires Shape() && nodes != {} && uniqueCountThreshold <= uniqueCount <= bound
      modifies this, table, nodes
      ensures Valid() && nodes == old(nodes) && fresh(table) && tableSize >= 2 * old(tableSize)
      ensures Doublings(tableSize, bound) < old(Doublings(tableSize, bound))
      decreases Doublings(tableSize, bound), 0
    {
      var oldTableSize, oldTable := tableSize, table;
      ghost var all, oldBuckets := nodes, buckets;
      Grow();
      var i := 0;
      while i < oldTableSize
        invariant 0 <= i <= oldTableSize
        invariant Valid() && fresh(table) && tableSize >= 2 * oldTableSize
        invariant Doublings(tableSize, bound) < old(Doublings(tableSize, bound))
        invariant forall n :: n in nodes <==> n in all && n.hashCode % oldTableSize < i
        invariant forall n | n in all && n !in nodes :: n.next == old(n.next)
        invariant forall j | 0 <= j < oldTableSize :: oldTable[j] == old(table[j])
      {
        assert old(ValidBucket(i));
        ReinsertBucket(oldTable[i], oldBuckets[i], all, bound);
        i := i + 1;
      }
      assert nodes == all;
    }

    /** Walks one bucket `b` of the old table and inserts its nodes into the new one. */
    method ReinsertBucket(first: Node?, ghost b: seq<Node>, ghost all: set<Node>, ghost bound: nat)
      requires Valid() && nodes <= all && |HashesOf(all)| <= bound
      requires Linked(first, b) && Distinct(b) && forall n | n in b :: n in all && n !in nodes
      modifies this, table, all
      ensures Valid() && (table == old(table) || fresh(table)) && tableSize >= old(tableSize)
      ensures forall n :: n in nodes <==> n in old(nodes) || n in b
      ensures Doublings(tableSize, bound) <= old(Doublings(tableSize, bound))
      ensures forall n | n in all && n !in nodes :: n.next == old(n.next)
      decreases Doublings(tableSize, bound), 2
    {
      var current := first;
      ghost var k := 0;
      while current != null
        invariant k <= |b| && current == (if k == |b| then null else b[k])
        invariant Valid() && (table == old(table) || fresh(table)) && tableSize >= old(tableSize)
        invariant Doublings(tableSize, bound) <= old(Doublings(tableSize, bound))
        invariant forall n :: n in nodes <==> n in old(nodes) || n in b[..k]
        invariant forall n | n in all && n !in nodes :: n.next == old(n.next)
        decreases |b| - k
      {
        var following := current.next;
        SubsetIsSmaller(HashesOf(nodes + {current}), HashesOf(all));
        Insert(current, bound);
        current, k := following, k + 1;
      }
    }

    /** Doubles the size and starts over with an empty table. */
    method Grow()
      requires Shape()
      modifies this
      ensures Valid() && fresh(table) && nodes == {}
      ensures tableSize == 2 * old(tableSize)
    {
      tableSize := 2 * tableSize;
      uniqueCountThreshold := Threshold(tableSize);
      table := new Node?[tableSize](_ => null);
      uniqueCount := 0;
      buckets := seq(tableSize, _ => []);
      nodes := {};
      assert HashesOf(nodes) == {};
    }

    // ----- creation

    constructor (sizeHint: nat)
      requires sizeHint >= 1
      ensures Valid() && nodes == {} && fresh(table)
      ensures sizeHint <= tableSize < 2 * sizeHint
    {
      var size := 1;
      PowersOfTwo(1);
      while size < sizeHint
        invariant 1 <= size && PowerOfTwo(size) && (size == 1 || size < 2 * sizeHint)
      {
        size := 2 * size;
      }
      tableSize := size;
      uniqueCountThreshold := Threshold(size);
      uniqueCount := 0;
      table := new Node?[size](_ => null);
      buckets := seq(size, _ => []);
      nodes := {};
      new;
      assert HashesOf(nodes) == {};
    }

    /** Inserts every node of a linked list. */
    method Build(first: Node?, ghost list: seq<Node>)
      requires Valid() && Linked(first, list) && Distinct(list) && forall n | n in list :: n !in nodes
      modifies this, table, nodes, list
      ensures Valid() && forall n :: n in nodes <==> n in old(nodes) || n in list
    {
      ghost var all := nodes + set n | n in list;
      ReinsertBucket(first, list, all, |HashesOf(all)|);
    }

    // ----- lookup

    method Lookup(h: nat) returns (node: Node?, ghost k: nat)
      requires Shape()
      ensures IsPlace(buckets[Hash(h)], h, k)
      ensures node == if k == |buckets[Hash(h)]| then null else buckets[Hash(h)][k]
      ensures node == null <==> h !in HashesOf(nodes)
    {
      ghost var b := buckets[Hash(h)];
      assert ValidBucket(Hash(h));
      node, k := table[Hash(h)], 0;
      while node != null
        invariant k <= |b| && (forall j | 0 <= j < k :: b[j].hashCode != h)
        invariant node == (if k == |b| then null else b[k])
        decreases |b| - k
      {
        if node.hashCode == h { break; }
        node, k := node.next, k + 1;
      }
      PlaceTellsHash(h, k);
    }

    /** The neighbour, if it has the same hash code. */
    method NextEqual(current: Node, h: nat) returns (following: Node?)
      requires current.hashCode == h
      ensures following == if current.next != null && current.next.hashCode == h then current.next else null
    {
      following := current.next;
      if following == null || following.hashCode != h { following := null; }
    }

    /** lookup(h) followed by next(node, h): exactly the nodes inserted with h, each once. */
    method FindAll(h: nat) returns (found: seq<Node>)
      requires Shape()
      ensures forall n :: n in found <==> n in nodes && n.hashCode == h
      ensures Distinct(found)
    {
      hide PowerOfTwo, HashesOf, PlaceOf;
      ghost var b := buckets[Hash(h)];
      assert ValidBucket(Hash(h));
      var node, first := Lookup(h);
      found := [];
      ghost var k := first;
      while node != null
        invariant first <= k <= |b| && found == b[first..k]
        invariant forall j | first <= j < k :: b[j].hashCode == h
        invariant node != null ==> k < |b| && node == b[k] && node.hashCode == h
        invariant node == null ==> k == |b| || b[k].hashCode != h
        decreases |b| - k
      {
        found := found + [node];
        node := NextEqual(node, h);
        k := k + 1;
      }
      GroupEnds(b, h, first, k);
    }

    // ----- iteration over all nodes

    /** The first node of the first bucket from `start` on that is not empty. */
    method FirstFrom(start: nat) returns (node: Node?, i: nat)
      requires Shape() && start <= tableSize
      ensures start <= i <= tableSize && forall j | start <= j < i :: buckets[j] == []
      ensures node == null <==> i == tableSize
      ensures node != null ==> buckets[i] != [] && node == buckets[i][0]
    {
      i := start;
      while i < tableSize
        invariant start <= i <= tableSize && forall j | start <= j < i :: buckets[j] == []
      {
        assert ValidBucket(i);
        if table[i] != null { return table[i], i; }
        i := i + 1;
      }
      return null, i;
    }

    method Next(current: Node, ghost k: nat) returns (node: Node?, ghost i: nat, ghost l: nat)
      requires Shape() && k < |buckets[Hash(current.hashCode)]| && buckets[Hash(current.hashCode)][k] == current
      ensures var c := Hash(current.hashCode);
              if k + 1 < |buckets[c]| then i == c && l == k + 1
              else c < i <= tableSize && l == 0 && forall j | c < j < i :: buckets[j] == []
      ensures node == null <==> i == tableSize
      ensures node != null ==> l < |buckets[i]| && node == buckets[i][l]
    {
      assert ValidBucket(Hash(current.hashCode));
      if current.next != null {
        return current.next, Hash(current.hashCode), k + 1;
      }
      var start := Hash(current.hashCode) + 1;
      node, i := FirstFrom(start);
      l := 0;
    }

    /** first() followed by next(node): every node, each once. */
    method VisitAll() returns (visited: seq<Node>)
      requires Shape()
      ensures forall n :: n in visited <==> n in nodes
      ensures Distinct(visited)
    {
      visited := [];
      var node, i := FirstFrom(0);
      ghost var at: nat, k: nat := i, 0;
      while node != null
        invariant node != null ==> at < tableSize && k < |buckets[at]| && node == buckets[at][k]
        invariant node == null ==> at == tableSize && k == 0
        invariant forall n :: n in visited <==> n in nodes && Before(n, at, k)
        invariant Distinct(visited)
        decreases tableSize - at, if at < tableSize then |buckets[at]| - k else 0
      {
        assert ValidBucket(at);
        visited := visited + [node];
        ghost var c, j := at, k;
        node, at, k := Next(node, k);
        BeforeAdvances(c, j, at, k);
      }
    }

    /** The bucket loop: every node of every bucket, each once. */
    method VisitBuckets() returns (visited: seq<Node>)
      requires Shape()
      ensures forall n :: n in visited <==> n in nodes
      ensures Distinct(visited)
    {
      visited := [];
      for i := 0 to tableSize
        invariant forall n :: n in visited <==> n in nodes && Hash(n.hashCode) < i
        invariant Distinct(visited)
      {
        assert ValidBucket(i);
        var bucket := VisitBucket(i);
        DistinctUnion(visited, bucket);
        visited := visited + bucket;
      }
    }

    method VisitBucket(i: nat) returns (bucket: seq<Node>)
      requires Shape() && i < tableSize
      ensures bucket == buckets[i]
    {
      assert ValidBucket(i);
      var node := table[i];
      bucket := [];
      while node != null
        invariant |bucket| <= |buckets[i]| && bucket == buckets[i][..|bucket|]
        invariant node == if |bucket| == |buckets[i]| then null else buckets[i][|bucket|]
        decreases |buckets[i]| - |bucket|
      {
        bucket := bucket + [node];
        node := node.next;
      }
    }

    lemma BeforeAdvances(c: nat, j: nat, i: nat, l: nat)
      requires Shape() && c < tableSize && j < |buckets[c]|
      requires if j + 1 < |buckets[c]| then i == c && l == j + 1
               else c < i <= tableSize && l == 0 && forall m | c < m < i :: buckets[m] == []
      ensures forall n | n in nodes :: Before(n, i, l) <==> Before(n, c, j) || n == buckets[c][j]
    {
      assert ValidBucket(c);
      forall n | n in nodes ensures Before(n, i, l) <==> Before(n, c, j) || n == buckets[c][j] {
        assert n in buckets[Hash(n.hashCode)];
        if Hash(n.hashCode) == c {
          assert buckets[c][..j + 1] == buckets[c][..j] + [buckets[c][j]];
          assert j + 1 == |buckets[c]| ==> buckets[c][..j + 1] == buckets[c];
        }
      }
    }

    /** The node comes before place `k` of bucket `i` in the order of the buckets. */
    ghost predicate Before(n: Node, i: nat, k: nat)
      reads this
      requires |buckets| == tableSize > 0
    {
      Hash(n.hashCode) < i
      || (Hash(n.hashCode) == i < tableSize && k <= |buckets[i]| && n in buckets[i][..k])
    }
  }

  lemma DistinctUnion(s: seq<Node>, t: seq<Node>)
    requires Distinct(s) && Distinct(t) && forall n | n in t :: n !in s
    ensures Distinct(s + t)
  {
    forall j, k | 0 <= j < k < |s + t| ensures (s + t)[j] != (s + t)[k] {
      if j < |s| <= k {
        assert t[k - |s|] in t;
      }
    }
  }

  lemma PowersOfTwo(n: nat)
    requires PowerOfTwo(n)
    ensures PowerOfTwo(2 * n)
  {}

  /** A group of equal hash codes that ends at `k` does not continue behind it. */
  lemma GroupEnds(s: seq<Node>, h: nat, first: nat, k: nat)
    requires Grouped(s) && IsPlace(s, h, first) && first <= k <= |s|
    requires forall j | first <= j < k :: s[j].hashCode == h
    requires k == |s| || s[k].hashCode != h
    ensures forall n :: n in s[first..k] <==> n in s && n.hashCode == h
  {}
}
