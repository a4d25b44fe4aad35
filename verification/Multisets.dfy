/** Counting elements of sequences, where order must not matter, and finding members. */
module Multisets {
  import opened Traversal

  lemma HasMember<A>(s: seq<A>)
    ensures s == [] || exists x :: x in s
  {
    if s != [] {
      assert s[0] in s;
    }
  }

  lemma InTail<A>(s: seq<A>, x: A)
    requires x in s && x != s[0]
    ensures x in s[1..]
  {
    var i :| 0 <= i < |s| && s[i] == x;
    assert s[1..][i - 1] == x;
  }

  lemma SplitAt<A>(s: seq<A>, i: nat)
    requires i < |s|
    ensures multiset(s) == multiset(s[..i] + s[i + 1..]) + multiset{s[i]}
  {
    assert s == s[..i] + [s[i]] + s[i + 1..];
  }

  lemma Snoc<A>(s: seq<A>, x: A)
    ensures multiset(s + [x]) == multiset(s) + multiset{x}
  {
  }

  lemma Cons<A>(x: A, s: seq<A>)
    ensures multiset([x] + s) == multiset{x} + multiset(s)
  {
  }

  lemma MoveIn<A>(m: multiset<A>, c: multiset<A>, l: multiset<A>, x: A)
    requires m == c + l
    ensures m + multiset{x} == (c + multiset{x}) + l
    ensures m + multiset{x} == c + (l + multiset{x})
  {
  }

  /** The first element of one list, found in a permutation of it. */
  lemma Find<A>(a: seq<A>, b: seq<A>) returns (i: nat)
    requires a != [] && multiset(a) == multiset(b)
    ensures i < |b| && b[i] == a[0]
    ensures multiset(a[1..]) == multiset(b[..i] + b[i + 1..])
  {
    assert a == [a[0]] + a[1..];
    Cons(a[0], a[1..]);
    assert a[0] in multiset(b);
    i :| 0 <= i < |b| && b[i] == a[0];
    SplitAt(b, i);
    Cancel(multiset(a[1..]), multiset(b[..i] + b[i + 1..]), a[0]);
  }

  lemma Cancel<A>(m: multiset<A>, n: multiset<A>, x: A)
    requires multiset{x} + m == n + multiset{x}
    ensures m == n
  {
    assert m == (multiset{x} + m) - multiset{x};
    assert n == (n + multiset{x}) - multiset{x};
  }

  /** Mapping respects permutation. */
  lemma {:induction false} MapPermutes<A, B>(f: A -> B, a: seq<A>, b: seq<A>)
    requires multiset(a) == multiset(b)
    ensures multiset(Map(f, a)) == multiset(Map(f, b))
  {
    if a == [] {
      assert |b| == |multiset(b)|;
      assert Map(f, a) == Map(f, b);
    } else {
      var i := Find(a, b);
      var rest := b[..i] + b[i + 1..];
      MapPermutes(f, a[1..], rest);
      SplitAt(Map(f, b), i);
      assert Map(f, b)[..i] + Map(f, b)[i + 1..] == Map(f, rest);
      Cons(f(a[0]), Map(f, a[1..]));
      assert Map(f, a) == [f(a[0])] + Map(f, a[1..]);
    }
  }

  ghost predicate Distinct<A>(s: seq<A>) {
    forall i, j :: 0 <= i < j < |s| ==> s[i] != s[j]
  }

  lemma {:induction false} CountDistinct<A>(s: seq<A>, x: A)
    requires Distinct(s)
    ensures multiset(s)[x] == if x in s then 1 else 0
  {
    if s != [] {
      assert s == [s[0]] + s[1..];
      CountDistinct(s[1..], x);
    }
  }

  /** Two lists without repetition and with the same members are permutations of each other. */
  lemma SameMembers<A>(a: seq<A>, b: seq<A>)
    requires Distinct(a) && Distinct(b)
    requires forall x :: x in a <==> x in b
    ensures multiset(a) == multiset(b)
  {
    forall x
      ensures multiset(a)[x] == multiset(b)[x]
    {
      CountDistinct(a, x);
      CountDistinct(b, x);
    }
  }
}
