/** Which frames a walk visits, in order, and how it came to each of them. */
module Frames {
  import opened Traversal
  import opened Extension

  /** The frames visited, in the order of their visits. */
  function Visited<F, R>(t: Tree<F, R>, fuel: nat, todo: seq<F>): seq<F>
    decreases fuel, |todo|
  {
    if todo == [] then []
    else
      [todo[0]] +
      (if fuel == 0 then [] else Visited(t, fuel - 1, t.kids(todo[0]))) +
      Visited(t, fuel, todo[1..])
  }

  function VisitedUnder<F, R>(t: Tree<F, R>, fuel: nat, f: F): seq<F> {
    if fuel == 0 then [] else Visited(t, fuel - 1, t.kids(f))
  }

  lemma VisitedHead<F, R>(t: Tree<F, R>, fuel: nat, todo: seq<F>)
    ensures Visited(t, fuel, todo) ==
            if todo == [] then [] else [todo[0]] + VisitedUnder(t, fuel, todo[0]) + Visited(t, fuel, todo[1..])
  {
  }

  /** Each frame descends from the one before it. */
  ghost predicate IsChain<F, R>(t: Tree<F, R>, c: seq<F>) {
    |c| > 0 && forall i :: 0 < i < |c| ==> c[i] in t.kids(c[i - 1])
  }

  function Last<F>(c: seq<F>): F
    requires |c| > 0
  {
    c[|c| - 1]
  }

  lemma {:induction false} ChainVisited<F, R>(t: Tree<F, R>, fuel: nat, todo: seq<F>, c: seq<F>)
    requires IsChain(t, c) && c[0] in todo && |c| <= fuel + 1
    ensures Last(c) in Visited(t, fuel, todo)
    decreases fuel, |todo|
  {
    hide Visited;
    VisitedHead(t, fuel, todo);
    if c[0] != todo[0] {
      ChainVisited(t, fuel, todo[1..], c);
    } else if |c| > 1 {
      assert c[1..][0] == c[1];
      ChainVisited(t, fuel - 1, t.kids(todo[0]), c[1..]);
    }
  }

  lemma {:induction false} VisitedHasChain<F, R>(t: Tree<F, R>, fuel: nat, todo: seq<F>, f: F) returns (c: seq<F>)
    requires f in Visited(t, fuel, todo)
    ensures IsChain(t, c) && c[0] in todo && |c| <= fuel + 1 && Last(c) == f
    decreases fuel, |todo|
  {
    hide Visited;
    VisitedHead(t, fuel, todo);
    if f == todo[0] {
      c := [f];
    } else if f in VisitedUnder(t, fuel, todo[0]) {
      var below := VisitedHasChain(t, fuel - 1, t.kids(todo[0]), f);
      c := [todo[0]] + below;
      forall i | 0 < i < |c|
        ensures c[i] in t.kids(c[i - 1])
      {
        if i > 1 {
          assert c[i] == below[i - 1] && c[i - 1] == below[i - 2];
        }
      }
    } else {
      c := VisitedHasChain(t, fuel, todo[1..], f);
    }
  }

  /** Every marked row is a row of a visited frame, and marked as that frame is. */
  lemma {:induction false} TaggedHasFrame<F, R>(t: Tree<F, R>, fuel: nat, todo: seq<F>, added: F -> bool, m: (R, bool))
      returns (f: F)
    requires m in Tagged(t, fuel, todo, added)
    ensures f in Visited(t, fuel, todo) && m.0 in t.rows(f) && m.1 == added(f)
    decreases fuel, |todo|
  {
    hide Visited, Tagged, Preorder;
    VisitedHead(t, fuel, todo);
    Untag(t, fuel, todo, added);
    if m in Mark(t.rows(todo[0]), added(todo[0])) {
      f := todo[0];
    } else if m in TaggedBelow(t, fuel, todo[0], added) {
      f := TaggedHasFrame(t, fuel - 1, t.kids(todo[0]), added, m);
    } else {
      f := TaggedHasFrame(t, fuel, todo[1..], added, m);
    }
  }

  lemma {:induction false} FrameHasTagged<F, R>(t: Tree<F, R>, fuel: nat, todo: seq<F>, added: F -> bool, f: F, row: R)
    requires f in Visited(t, fuel, todo) && row in t.rows(f)
    ensures (row, added(f)) in Tagged(t, fuel, todo, added)
    decreases fuel, |todo|
  {
    hide Visited, Tagged, Preorder;
    VisitedHead(t, fuel, todo);
    Untag(t, fuel, todo, added);
    if f == todo[0] {
      var i :| 0 <= i < |t.rows(f)| && t.rows(f)[i] == row;
      assert Mark(t.rows(f), added(f))[i] == (row, added(f));
    } else if f in VisitedUnder(t, fuel, todo[0]) {
      FrameHasTagged(t, fuel - 1, t.kids(todo[0]), added, f, row);
    } else {
      FrameHasTagged(t, fuel, todo[1..], added, f, row);
    }
  }
}
