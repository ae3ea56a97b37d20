/** The branch forest of a database and the lineage a query reads with.

    Branches are numbered in the order of their creation, so a branch forest is a sequence of
    parent ids in which every parent is older than its child.  The lineage of a branch maps each of
    its proper ancestors to the child through which the path to the branch leaves that ancestor. */
module Lineage {

  const MASTER_BRANCH: nat := 0
  const INVALID_BRANCH: nat := 0xFFFF_FFFF

  /** `parents[b]` is the parent of branch `b`; INVALID_BRANCH marks a root. */
  predicate Forest(parents: seq<nat>)
  {
    && 1 <= |parents| <= INVALID_BRANCH
    && parents[MASTER_BRANCH] == INVALID_BRANCH
    && forall b | 0 <= b < |parents| :: parents[b] == INVALID_BRANCH || parents[b] < b
  }

  predicate IsRoot(parents: seq<nat>, b: nat)
    requires b < |parents|
  {
    parents[b] == INVALID_BRANCH
  }

  function LineageOf(parents: seq<nat>, b: nat): map<nat, nat>
    requires Forest(parents) && b < |parents|
  {
    if IsRoot(parents, b) then map[] else LineageOf(parents, parents[b])[parents[b] := b]
  }

  /** The lineage bitset marks the branch itself and every key of its lineage. */
  function LineageBitset(parents: seq<nat>, b: nat): (bits: seq<bool>)
    requires Forest(parents) && b < |parents|
    ensures |bits| == |parents|
  {
    seq(|parents|, a => a == b || a in LineageOf(parents, b))
  }

  /** Independent reference: a path of parent edges leads from `b` up to `a`. */
  predicate AncestorOrSelf(parents: seq<nat>, a: nat, b: nat)
    requires Forest(parents) && b < |parents|
  {
    a == b || (!IsRoot(parents, b) && AncestorOrSelf(parents, a, parents[b]))
  }

  predicate ProperAncestor(parents: seq<nat>, a: nat, b: nat)
    requires Forest(parents) && b < |parents|
  {
    a != b && AncestorOrSelf(parents, a, b)
  }

  lemma {:induction false} AncestorIsOlder(parents: seq<nat>, a: nat, b: nat)
    requires Forest(parents) && b < |parents|
    requires AncestorOrSelf(parents, a, b)
    ensures a <= b
  {
    if a != b {
      AncestorIsOlder(parents, a, parents[b]);
    }
  }

  /** The lineage holds exactly the proper ancestors, each mapped to its child on the path. */
  lemma {:induction false} LineageMeaning(parents: seq<nat>, b: nat)
    requires Forest(parents) && b < |parents|
    ensures forall a: nat :: a in LineageOf(parents, b) <==> ProperAncestor(parents, a, b)
    ensures forall a: nat | a in LineageOf(parents, b) ::
              var c := LineageOf(parents, b)[a];
              a < c <= b && parents[c] == a && AncestorOrSelf(parents, c, b)
  {
    if !IsRoot(parents, b) {
      var p := parents[b];
      LineageMeaning(parents, p);
      forall a: nat
        ensures a in LineageOf(parents, b) <==> ProperAncestor(parents, a, b)
      {
        if AncestorOrSelf(parents, a, p) {
          AncestorIsOlder(parents, a, p);
        }
      }
    }
  }

  /** The child on the path is determined by the path, so LineageMeaning pins the lineage down. */
  lemma {:induction false} ChildOnPathIsUnique(parents: seq<nat>, c: nat, d: nat, b: nat)
    requires Forest(parents) && b < |parents| && c < |parents| && d < |parents|
    requires AncestorOrSelf(parents, c, b) && AncestorOrSelf(parents, d, b)
    requires parents[c] == parents[d] && !IsRoot(parents, c)
    ensures c == d
  {
    if c == b {
      if d != b {
        AncestorIsOlder(parents, d, parents[b]);
      }
    } else if d == b {
      AncestorIsOlder(parents, c, parents[b]);
    } else {
      ChildOnPathIsUnique(parents, c, d, parents[b]);
    }
  }

  /** Creating a branch leaves every existing lineage as it was. */
  lemma {:induction false} LineageIsStable(parents: seq<nat>, p: nat, b: nat)
    requires Forest(parents) && Forest(parents + [p]) && b < |parents|
    ensures LineageOf(parents + [p], b) == LineageOf(parents, b)
  {
    if !IsRoot(parents, b) {
      LineageIsStable(parents, p, parents[b]);
    }
  }
}
