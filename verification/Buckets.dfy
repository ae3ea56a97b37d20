/** What both hash tables share: sizes that are powers of two, and lists that hold a node once. */
module Buckets {

  predicate PowerOfTwo(n: nat)
  {
    n == 1 || (n > 1 && n % 2 == 0 && PowerOfTwo(n / 2))
  }

  ghost predicate Distinct<T>(s: seq<T>)
  {
    forall j, k | 0 <= j < k < |s| :: s[j] != s[k]
  }
}
