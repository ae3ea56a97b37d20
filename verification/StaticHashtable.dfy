/** The join list and the hash table that is built from it in one pass, by relinking its nodes. */
module StaticHashtable {
  import opened Buckets

  class ListNode<T> {
    var next: ListNode?<T>
    const hashCode: nat
    const tuple: T

    /** Pool memory starts zeroed, so the link is null. */
    constructor (hashCode: nat, tuple: T)
      ensures this.hashCode == hashCode && this.tuple == tuple && next == null
    {
      this.hashCode, this.tuple := hashCode, tuple;
      next := null;
    }
  }

  ghost predicate Linked<T>(head: ListNode?<T>, s: seq<ListNode<T>>)
    reads s
  {
    && head == (if s == [] then null else s[0])
    && forall k {:trigger s[k].next} | 0 <= k < |s| :: s[k].next == if k + 1 < |s| then s[k + 1] else null
  }

  /** The header of the join list; a null `last` stands for the header itself. */
  class JoinList<T> {
    var first: ListNode?<T>
    var last: ListNode?<T>
    var len: nat
    ghost var nodes: seq<ListNode<T>>

    ghost predicate Valid()
      reads this, nodes
    {
      && Linked(first, nodes) && Distinct(nodes)
      && last == (if nodes == [] then null else nodes[|nodes| - 1])
      && len == |nodes|
    }

    constructor ()
      ensures Valid() && nodes == []
    {
      first, last, len, nodes := null, null, 0, [];
    }

    /** Appends without looking at the list: the node is stored through the last pointer. */
    method Append(hashCode: nat, tuple: T)
      requires Valid()
      modifies this, nodes
      ensures Valid() && |nodes| == |old(nodes)| + 1 && nodes[..|old(nodes)|] == old(nodes)
      ensures fresh(nodes[|old(nodes)|])
      ensures nodes[|old(nodes)|].hashCode == hashCode && nodes[|old(nodes)|].tuple == tuple
    {
      var node := new ListNode(hashCode, tuple);
      len := len + 1;
      if last == null {
        first := node;
      } else {
        last.next := node;
      }
      last := node;
      nodes := nodes + [node];
    }
  }

  // ----- bucket contents

  /** The nodes that hash to bucket `i`, the latest first. */
  ghost function Chain<T>(s: seq<ListNode<T>>, i: nat, size: nat): seq<ListNode<T>>
    requires size > 0
  {
    if s == [] then [] else
      var rest, node := Chain(s[..|s| - 1], i, size), s[|s| - 1];
      if node.hashCode % size == i then [node] + rest else rest
  }

  /** The nodes with hash code `h`, the latest first. */
  ghost function WithHash<T>(s: seq<ListNode<T>>, h: nat): seq<ListNode<T>>
  {
    if s == [] then [] else
      var rest, node := WithHash(s[..|s| - 1], h), s[|s| - 1];
      if node.hashCode == h then [node] + rest else rest
  }

  lemma {:induction false} ChainMembers<T>(s: seq<ListNode<T>>, i: nat, size: nat)
    requires size > 0
    ensures forall n :: n in Chain(s, i, size) <==> n in s && n.hashCode % size == i
  {
    if s != [] {
      ChainMembers(s[..|s| - 1], i, size);
      assert s == s[..|s| - 1] + [s[|s| - 1]];
    }
  }

  lemma {:induction false} ChainWithin<T>(s: seq<ListNode<T>>, k: nat, i: nat, size: nat)
    requires size > 0 && k <= |s|
    ensures forall j | 0 <= j < |Chain(s[..k], i, size)| :: Chain(s[..k], i, size)[j] in s
  {
    if k > 0 {
      ChainWithin(s, k - 1, i, size);
      assert s[..k][..k - 1] == s[..k - 1];
    }
  }

  /** Filtering from the front. */
  ghost function Filtered<T>(chain: seq<ListNode<T>>, h: nat): seq<ListNode<T>>
  {
    if chain == [] then []
    else if chain[0].hashCode == h then [chain[0]] + Filtered(chain[1..], h)
    else Filtered(chain[1..], h)
  }

  lemma {:induction false} FilteredChain<T>(s: seq<ListNode<T>>, h: nat, size: nat)
    requires size > 0
    ensures Filtered(Chain(s, h % size, size), h) == WithHash(s, h)
  {
    if s != [] {
      var rest := Chain(s[..|s| - 1], h % size, size);
      FilteredChain(s[..|s| - 1], h, size);
      assert ([s[|s| - 1]] + rest)[1..] == rest;
    }
  }

  /** Exactly the nodes of the list with the hash code. */
  lemma {:induction false} WithHashMeaning<T>(s: seq<ListNode<T>>, h: nat)
    ensures forall n :: n in WithHash(s, h) <==> n in s && n.hashCode == h
  {
    if s != [] {
      WithHashMeaning(s[..|s| - 1], h);
      assert s == s[..|s| - 1] + [s[|s| - 1]];
    }
  }

  /** And each of them once. */
  lemma {:induction false} WithHashIsDistinct<T>(s: seq<ListNode<T>>, h: nat)
    requires Distinct(s)
    ensures Distinct(WithHash(s, h))
  {
    if s != [] {
      WithHashIsDistinct(s[..|s| - 1], h);
      WithHashMeaning(s[..|s| - 1], h);
    }
  }

  method SizeFor(len: nat) returns (size: nat)
    requires len >= 1
    ensures PowerOfTwo(size) && 4 * len <= 3 * size < 8 * len
  {
    size := 1;
    while 3 * size < 4 * len
      invariant PowerOfTwo(size) && (size == 1 || 3 * size < 8 * len)
    {
      size := 2 * size;
    }
  }

  class StaticHashtable<T> {
    const table: array<ListNode?<T>>
    const tableSize: nat
    ghost const nodes: seq<ListNode<T>>

    function Hash(h: nat): nat
      requires tableSize > 0
    {
      h % tableSize
    }

    ghost predicate Bucket(i: nat, k: nat)
      reads table, nodes
      requires i < table.Length == tableSize && k <= |nodes|
    {
      ChainWithin(nodes, k, i, tableSize);
      Linked(table[i], Chain(nodes[..k], i, tableSize))
    }

    ghost predicate Valid()
      reads table, nodes
    {
      && table.Length == tableSize > 0
      && forall i {:trigger Bucket(i, |nodes|)} | 0 <= i < tableSize :: Bucket(i, |nodes|)
    }

    /** The least power of two that keeps the load at or below three quarters. */
    constructor (first: ListNode?<T>, len: nat, ghost list: seq<ListNode<T>>)
      requires Linked(first, list) && Distinct(list) && len == |list| >= 1
      modifies list
      ensures Valid() && nodes == list && fresh(table)
      ensures PowerOfTwo(tableSize) && 4 * len <= 3 * tableSize < 8 * len
    {
      var size := SizeFor(len);
      tableSize := size;
      table := new ListNode?<T>[size](_ => null);
      nodes := list;
      new;
      Build(first);
    }

    method Build(first: ListNode?<T>)
      requires Linked(first, nodes) && Distinct(nodes)
      requires table.Length == tableSize > 0 && forall i | 0 <= i < tableSize :: table[i] == null
      modifies table, nodes
      ensures Valid()
    {
      var current := first;
      ghost var k := 0;
      while current != null
        invariant k <= |nodes| && current == (if k == |nodes| then null else nodes[k])
        invariant forall j {:trigger nodes[j].next} | k <= j < |nodes| ::
                    nodes[j].next == if j + 1 < |nodes| then nodes[j + 1] else null
        invariant forall i {:trigger Bucket(i, k)} | 0 <= i < tableSize :: Bucket(i, k)
        decreases |nodes| - k
      {
        var nextNode := current.next;
        PushFront(current, k);
        current := nextNode;
        k := k + 1;
      }
    }

    /** Puts the k-th node in front of its bucket. */
    method PushFront(current: ListNode<T>, ghost k: nat)
      requires k < |nodes| && current == nodes[k] && Distinct(nodes) && table.Length == tableSize > 0
      requires forall i {:trigger Bucket(i, k)} | 0 <= i < tableSize :: Bucket(i, k)
      modifies table, current
      ensures forall i {:trigger Bucket(i, k + 1)} | 0 <= i < tableSize :: Bucket(i, k + 1)
    {
      var i := Hash(current.hashCode);
      assert Bucket(i, k);
      current.next := table[i];
      table[i] := current;
      assert nodes[..k + 1][..k] == nodes[..k];
      forall j {:trigger Bucket(j, k + 1)} | 0 <= j < tableSize ensures Bucket(j, k + 1) {
        ChainMembers(nodes[..k], j, tableSize);
        assert old(Bucket(j, k));
      }
    }

    /** The node with the hash code that was inserted last, or null if there is none. */
    method Lookup(h: nat) returns (node: ListNode?<T>, ghost k: nat)
      requires Valid()
      ensures node == if WithHash(nodes, h) == [] then null else WithHash(nodes, h)[0]
      ensures var chain := Chain(nodes, Hash(h), tableSize);
              && k <= |chain| && node == (if k == |chain| then null else chain[k])
              && (forall j | 0 <= j < k :: chain[j].hashCode != h)
    {
      ghost var chain := Chain(nodes, Hash(h), tableSize);
      assert Bucket(Hash(h), |nodes|) && nodes[..|nodes|] == nodes;
      FilteredChain(nodes, h, tableSize);
      node, k := table[Hash(h)], 0;
      while node != null
        invariant k <= |chain| && node == (if k == |chain| then null else chain[k])
        invariant forall j | 0 <= j < k :: chain[j].hashCode != h
        decreases |chain| - k
      {
        if node.hashCode == h { break; }
        node, k := node.next, k + 1;
      }
      FirstFiltered(chain, h, k);
    }

    /** lookup(h), then the rest of the bucket: the tuples stored with h, the latest first. */
    method Matches(h: nat) returns (tuples: seq<T>)
      requires Valid()
      ensures tuples == TuplesOf(WithHash(nodes, h))
    {
      ghost var chain := Chain(nodes, Hash(h), tableSize);
      assert Bucket(Hash(h), |nodes|) && nodes[..|nodes|] == nodes;
      assert Linked(table[Hash(h)], chain);
      var node, k := Lookup(h);
      tuples := [];
      FilteredPrefixIsEmpty(chain, h, k);
      while node != null
        invariant k <= |chain| && node == (if k == |chain| then null else chain[k])
        invariant tuples == TuplesOf(Filtered(chain[..k], h))
        decreases |chain| - k
      {
        FilteredStep(chain, h, k);
        if node.hashCode == h {
          tuples := tuples + [node.tuple];
        }
        node, k := node.next, k + 1;
      }
      assert chain[..k] == chain;
      FilteredChain(nodes, h, tableSize);
    }
  }

  ghost function TuplesOf<T>(s: seq<ListNode<T>>): seq<T>
  {
    seq(|s|, i requires 0 <= i < |s| => s[i].tuple)
  }

  lemma {:induction false} FilteredPrefixIsEmpty<T>(chain: seq<ListNode<T>>, h: nat, k: nat)
    requires k <= |chain| && forall j | 0 <= j < k :: chain[j].hashCode != h
    ensures Filtered(chain[..k], h) == []
    decreases k
  {
    if k > 0 {
      FilteredPrefixIsEmpty(chain[1..], h, k - 1);
      assert chain[..k][1..] == chain[1..][..k - 1];
    }
  }

  /** The first node that passes the filter. */
  lemma {:induction false} FirstFiltered<T>(chain: seq<ListNode<T>>, h: nat, k: nat)
    requires k <= |chain| && (forall j | 0 <= j < k :: chain[j].hashCode != h)
    requires k < |chain| ==> chain[k].hashCode == h
    ensures if k == |chain| then Filtered(chain, h) == []
            else Filtered(chain, h) != [] && Filtered(chain, h)[0] == chain[k]
    decreases k
  {
    if k > 0 {
      FirstFiltered(chain[1..], h, k - 1);
    }
  }

  lemma {:induction false} FilteredStep<T>(chain: seq<ListNode<T>>, h: nat, k: nat)
    requires k < |chain|
    ensures Filtered(chain[..k + 1], h)
         == Filtered(chain[..k], h) + if chain[k].hashCode == h then [chain[k]] else []
    decreases k
  {
    if k > 0 {
      FilteredStep(chain[1..], h, k - 1);
      assert chain[..k + 1][1..] == chain[1..][..k];
      assert chain[..k][1..] == chain[1..][..k - 1];
    } else {
      assert chain[..1][1..] == [];
      assert chain[..0] == [];
    }
  }
}
