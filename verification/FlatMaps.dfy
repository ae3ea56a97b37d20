/** Sequences as bags: an operator that turns every row into some rows, in any order of its input. */
module FlatMaps {

  function FlatMap<A, B>(s: seq<A>, f: A -> seq<B>): seq<B>
  {
    if s == [] then [] else FlatMap(s[..|s| - 1], f) + f(s[|s| - 1])
  }

  lemma {:induction false} FlatMapConcat<A, B>(s: seq<A>, t: seq<A>, f: A -> seq<B>)
    ensures FlatMap(s + t, f) == FlatMap(s, f) + FlatMap(t, f)
  {
    if t == [] {
      assert s + t == s;
    } else {
      assert (s + t)[..|s + t| - 1] == s + t[..|t| - 1];
      FlatMapConcat(s, t[..|t| - 1], f);
    }
  }

  lemma FlatMapOne<A, B>(a: A, f: A -> seq<B>)
    ensures FlatMap([a], f) == f(a)
  {
    assert FlatMap([a], f) == FlatMap([a][..0], f) + f(a);
  }

  lemma FlatMapNone<A, B>(f: A -> seq<B>)
    ensures FlatMap([], f) == []
  {
  }

  /** One row taken out of the middle contributes its own results. */
  lemma FlatMapPick<A, B>(t: seq<A>, i: nat, f: A -> seq<B>)
    requires i < |t|
    ensures multiset(t) == multiset(t[..i] + t[i + 1..]) + multiset{t[i]}
    ensures multiset(FlatMap(t, f)) == multiset(FlatMap(t[..i] + t[i + 1..], f)) + multiset(f(t[i]))
  {
    hide FlatMap;
    var front, rest := t[..i], t[i + 1..];
    CutOut(t, i);
    FlatMapMiddle(front, t[i], rest, f);
    FlatMapConcat(front, rest, f);
    SwapEnds(FlatMap(front, f), f(t[i]), FlatMap(rest, f));
    SwapEnds(front, [t[i]], rest);
  }

  lemma CutOut<A>(t: seq<A>, i: nat)
    requires i < |t|
    ensures t == (t[..i] + [t[i]]) + t[i + 1..]
  {
  }

  lemma FlatMapMiddle<A, B>(front: seq<A>, a: A, rest: seq<A>, f: A -> seq<B>)
    ensures FlatMap((front + [a]) + rest, f) == (FlatMap(front, f) + f(a)) + FlatMap(rest, f)
  {
    hide FlatMap;
    FlatMapConcat(front + [a], rest, f);
    FlatMapConcat(front, [a], f);
    FlatMapOne(a, f);
  }

  lemma SwapEnds<A>(a: seq<A>, b: seq<A>, c: seq<A>)
    ensures multiset((a + b) + c) == multiset(a + c) + multiset(b)
  {
  }

  /** The bag of the result depends on the bag of the input only. */
  lemma {:induction false} FlatMapOfBag<A, B>(s: seq<A>, t: seq<A>, f: A -> seq<B>)
    requires multiset(s) == multiset(t)
    ensures multiset(FlatMap(s, f)) == multiset(FlatMap(t, f))
  {
    if s == [] {
      assert |multiset(t)| == 0;
    } else {
      var last := |s| - 1;
      assert s[last] in multiset(t);
      var i :| 0 <= i < |t| && t[i] == s[last];
      FlatMapPick(s, last, f);
      FlatMapPick(t, i, f);
      var front, rest := s[..last] + s[last + 1..], t[..i] + t[i + 1..];
      assert multiset(front) == multiset(s) - multiset{s[last]} == multiset(rest);
      FlatMapOfBag(front, rest, f);
    }
  }

  lemma {:induction false} FlatMapSameBags<A, B>(s: seq<A>, f: A -> seq<B>, g: A -> seq<B>)
    requires forall x | x in s :: multiset(f(x)) == multiset(g(x))
    ensures multiset(FlatMap(s, f)) == multiset(FlatMap(s, g))
  {
    if s != [] {
      FlatMapSameBags(s[..|s| - 1], f, g);
    }
  }

  lemma {:induction false} FlatMapSame<A, B>(s: seq<A>, f: A -> seq<B>, g: A -> seq<B>)
    requires forall x | x in s :: f(x) == g(x)
    ensures FlatMap(s, f) == FlatMap(s, g)
  {
    if s != [] {
      FlatMapSame(s[..|s| - 1], f, g);
    }
  }

  /** Two operators in a row, as one. */
  function Then<A, B, C>(f: A -> seq<B>, g: B -> seq<C>): A -> seq<C>
  {
    a => FlatMap(f(a), g)
  }

  lemma {:induction false} FlatMapTwice<A, B, C>(s: seq<A>, f: A -> seq<B>, g: B -> seq<C>)
    ensures FlatMap(FlatMap(s, f), g) == FlatMap(s, Then(f, g))
  {
    if s != [] {
      FlatMapTwice(s[..|s| - 1], f, g);
      FlatMapConcat(FlatMap(s[..|s| - 1], f), f(s[|s| - 1]), g);
    }
  }
}
