/**
  Whole walks, as values. The explicit stack is a queue discipline over visits (`RowsAfter`,
  `Agenda`), which makes sense on any tree, endless ones included; the recursive pre-order
  walk (`Preorder`) makes sense on finite ones. They are the same walk.
 */
module Traversal {

  /** A tree to walk: what visiting a frame emits, and which frames it descends into. */
  datatype Tree<!F, !R> = Tree(rows: F -> seq<R>, kids: F -> seq<F>)

  // ----- the explicit stack, one visit at a time -----

  /** The agenda after one visit: the children come before what was left, in key order. */
  function Advance<F, R>(t: Tree<F, R>, todo: seq<F>): seq<F>
    requires todo != []
  {
    t.kids(todo[0]) + todo[1..]
  }

  function Agenda<F, R>(t: Tree<F, R>, n: nat, todo: seq<F>): seq<F> {
    if n == 0 || todo == [] then todo else Agenda(t, n - 1, Advance(t, todo))
  }

  /** The rows of the first `n` visits. */
  function RowsAfter<F, R>(t: Tree<F, R>, n: nat, todo: seq<F>): seq<R> {
    if n == 0 || todo == [] then []
    else t.rows(todo[0]) + RowsAfter(t, n - 1, Advance(t, todo))
  }

  /** One more visit, seen from the end. */
  lemma {:induction false} OneMoreVisit<F, R>(t: Tree<F, R>, n: nat, todo: seq<F>)
    requires Agenda(t, n, todo) != []
    ensures Agenda(t, n + 1, todo) == Advance(t, Agenda(t, n, todo))
    ensures RowsAfter(t, n + 1, todo) == RowsAfter(t, n, todo) + t.rows(Agenda(t, n, todo)[0])
  {
    if n == 0 {
      assert RowsAfter(t, 0, Advance(t, todo)) == [];
    } else {
      OneMoreVisit(t, n - 1, Advance(t, todo));
    }
  }

  /** Nothing is left: more visits add nothing. */
  lemma {:induction false} NoMoreVisits<F, R>(t: Tree<F, R>, n: nat, m: nat, todo: seq<F>)
    requires Agenda(t, n, todo) == []
    ensures RowsAfter(t, n + m, todo) == RowsAfter(t, n, todo)
    ensures Agenda(t, n + m, todo) == []
  {
    if n > 0 && todo != [] {
      NoMoreVisits(t, n - 1, m, Advance(t, todo));
    }
  }

  /** Rows already out stay out: a longer walk extends a shorter one. */
  lemma {:induction false} RowsOnlyGrow<F, R>(t: Tree<F, R>, n: nat, m: nat, todo: seq<F>)
    requires n <= m
    ensures RowsAfter(t, n, todo) <= RowsAfter(t, m, todo)
  {
    if n > 0 && todo != [] {
      RowsOnlyGrow(t, n - 1, m - 1, Advance(t, todo));
    }
  }

  // ----- the recursive pre-order walk -----

  /** Each directory's rows followed by its descended children, `fuel` levels deep. */
  function Preorder<F, R>(t: Tree<F, R>, fuel: nat, todo: seq<F>): seq<R>
    decreases fuel, |todo|
  {
    if todo == [] then []
    else
      t.rows(todo[0]) +
      (if fuel == 0 then [] else Preorder(t, fuel - 1, t.kids(todo[0]))) +
      Preorder(t, fuel, todo[1..])
  }

  /** The trees below these frames are finite: `fuel` levels reach their bottom. */
  predicate Fits<F, R>(t: Tree<F, R>, fuel: nat, todo: seq<F>)
    decreases fuel, |todo|
  {
    todo == [] ||
    (&& (if fuel == 0 then t.kids(todo[0]) == [] else Fits(t, fuel - 1, t.kids(todo[0])))
     && Fits(t, fuel, todo[1..]))
  }

  /** How many directories the walk visits. */
  function Visits<F, R>(t: Tree<F, R>, fuel: nat, todo: seq<F>): nat
    decreases fuel, |todo|
  {
    if todo == [] then 0
    else
      1 + (if fuel == 0 then 0 else Visits(t, fuel - 1, t.kids(todo[0]))) +
      Visits(t, fuel, todo[1..])
  }

  /** The rows below one frame, and how many visits they take. */
  function Below<F, R>(t: Tree<F, R>, fuel: nat, f: F): seq<R> {
    if fuel == 0 then [] else Preorder(t, fuel - 1, t.kids(f))
  }

  function VisitsBelow<F, R>(t: Tree<F, R>, fuel: nat, f: F): nat {
    if fuel == 0 then 0 else Visits(t, fuel - 1, t.kids(f))
  }

  lemma Unfold<F, R>(t: Tree<F, R>, fuel: nat, f: F, tail: seq<F>, n: nat, rest: seq<F>)
    ensures Preorder(t, fuel, [f] + tail) == t.rows(f) + Below(t, fuel, f) + Preorder(t, fuel, tail)
    ensures Visits(t, fuel, [f] + tail) == 1 + VisitsBelow(t, fuel, f) + Visits(t, fuel, tail)
    ensures RowsAfter(t, 1 + n, ([f] + tail) + rest) == t.rows(f) + RowsAfter(t, n, t.kids(f) + (tail + rest))
    ensures Agenda(t, 1 + n, ([f] + tail) + rest) == Agenda(t, n, t.kids(f) + (tail + rest))
  {
    assert ([f] + tail)[1..] == tail;
    assert (([f] + tail) + rest)[1..] == tail + rest;
  }

  lemma NothingToDo<F, R>(t: Tree<F, R>, fuel: nat)
    ensures Preorder(t, fuel, []) == [] && Visits(t, fuel, []) == 0
  {
  }

  /** One frame's share of the rows, put in front of the rest's. */
  lemma Glue<F, R>(t: Tree<F, R>, fuel: nat, f: F, tail: seq<F>, rest: seq<F>, m: nat)
    requires RowsAfter(t, VisitsBelow(t, fuel, f) + (Visits(t, fuel, tail) + m), t.kids(f) + (tail + rest))
          == Below(t, fuel, f) + RowsAfter(t, Visits(t, fuel, tail) + m, tail + rest)
    requires RowsAfter(t, Visits(t, fuel, tail) + m, tail + rest)
          == Preorder(t, fuel, tail) + RowsAfter(t, m, rest)
    ensures RowsAfter(t, Visits(t, fuel, [f] + tail) + m, ([f] + tail) + rest)
         == Preorder(t, fuel, [f] + tail) + RowsAfter(t, m, rest)
  {
    hide RowsAfter, Agenda, Preorder, Visits, Below, VisitsBelow;
    var n := VisitsBelow(t, fuel, f) + (Visits(t, fuel, tail) + m);
    Unfold(t, fuel, f, tail, n, rest);
    Regroup(t.rows(f), Below(t, fuel, f), Preorder(t, fuel, tail), RowsAfter(t, m, rest));
  }

  lemma {:induction false} StackRowsBefore<F, R>(t: Tree<F, R>, fuel: nat, todo: seq<F>, rest: seq<F>, m: nat)
    requires Fits(t, fuel, todo)
    ensures RowsAfter(t, Visits(t, fuel, todo) + m, todo + rest) == Preorder(t, fuel, todo) + RowsAfter(t, m, rest)
    decreases fuel, |todo|
  {
    hide RowsAfter, Agenda, Preorder, Visits;
    if todo == [] {
      NothingToDo(t, fuel);
      assert todo + rest == rest;
    } else {
      var f, tail := todo[0], todo[1..];
      var v := Visits(t, fuel, tail) + m;
      assert todo == [f] + tail;
      if fuel == 0 {
        assert t.kids(f) + (tail + rest) == tail + rest;
      } else {
        StackRowsBefore(t, fuel - 1, t.kids(f), tail + rest, v);
      }
      StackRowsBefore(t, fuel, tail, rest, m);
      Glue(t, fuel, f, tail, rest, m);
    }
  }

  lemma {:induction false} StackAgendaBefore<F, R>(t: Tree<F, R>, fuel: nat, todo: seq<F>, rest: seq<F>, m: nat)
    requires Fits(t, fuel, todo)
    ensures Agenda(t, Visits(t, fuel, todo) + m, todo + rest) == Agenda(t, m, rest)
    decreases fuel, |todo|
  {
    hide RowsAfter, Agenda, Preorder, Visits;
    if todo == [] {
      NothingToDo(t, fuel);
      assert todo + rest == rest;
    } else {
      var f, kids, tail := todo[0], t.kids(todo[0]), todo[1..];
      var v := Visits(t, fuel, tail);
      var n := VisitsBelow(t, fuel, f) + (v + m);
      assert todo == [f] + tail;
      Unfold(t, fuel, f, tail, n, rest);
      assert Visits(t, fuel, todo) + m == 1 + n;
      if fuel == 0 {
        assert kids + (tail + rest) == tail + rest;
      } else {
        StackAgendaBefore(t, fuel - 1, kids, tail + rest, v + m);
      }
      StackAgendaBefore(t, fuel, tail, rest, m);
    }
  }

  lemma Regroup<R>(a: seq<R>, b: seq<R>, c: seq<R>, d: seq<R>)
    ensures a + (b + (c + d)) == (a + b + c) + d
  {
  }

  /**
    The explicit stack refines the recursive walk: on every pair of finite trees it is done
    after exactly `Visits` visits, having emitted the pre-order rows.
   */
  lemma StackRefinesRecursion<F, R>(t: Tree<F, R>, fuel: nat, todo: seq<F>)
    requires Fits(t, fuel, todo)
    ensures RowsAfter(t, Visits(t, fuel, todo), todo) == Preorder(t, fuel, todo)
    ensures Agenda(t, Visits(t, fuel, todo), todo) == []
    ensures forall n :: RowsAfter(t, n, todo) <= Preorder(t, fuel, todo)
  {
    var v := Visits(t, fuel, todo);
    StackRowsBefore(t, fuel, todo, [], 0);
    StackAgendaBefore(t, fuel, todo, [], 0);
    assert todo + [] == todo;
    forall n: nat
      ensures RowsAfter(t, n, todo) <= Preorder(t, fuel, todo)
    {
      if n <= v {
        RowsOnlyGrow(t, n, v, todo);
      } else {
        NoMoreVisits(t, v, n - v, todo);
      }
    }
  }

  // ----- two trees seen through a pair of maps -----

  function Map<A, B>(f: A -> B, s: seq<A>): (r: seq<B>)
    ensures |r| == |s|
    ensures forall i :: 0 <= i < |s| ==> r[i] == f(s[i])
  {
    seq(|s|, i requires 0 <= i < |s| => f(s[i]))
  }

  lemma MapAppend<A, B>(f: A -> B, a: seq<A>, b: seq<A>)
    ensures Map(f, a + b) == Map(f, a) + Map(f, b)
  {
  }

  /** Every frame the walk visits satisfies `p`. */
  predicate AllVisited<F, R>(t: Tree<F, R>, fuel: nat, todo: seq<F>, p: F -> bool)
    decreases fuel, |todo|
  {
    todo == [] ||
    (&& p(todo[0])
     && (fuel == 0 || AllVisited(t, fuel - 1, t.kids(todo[0]), p))
     && AllVisited(t, fuel, todo[1..], p))
  }

  /** The second tree is the first one seen through `phi`: same shape, as many rows. */
  ghost predicate SameShape<F(!new), R>(t: Tree<F, R>, u: Tree<F, R>, phi: F -> F) {
    && (forall f :: u.kids(phi(f)) == Map(phi, t.kids(f)))
    && (forall f :: |u.rows(phi(f))| == |t.rows(f)|)
  }

  lemma MapHead<A, B>(f: A -> B, s: seq<A>)
    requires s != []
    ensures Map(f, s)[0] == f(s[0]) && Map(f, s)[1..] == Map(f, s[1..])
  {
  }

  lemma {:induction false} SameLength<F(!new), R>(t: Tree<F, R>, u: Tree<F, R>, phi: F -> F, fuel: nat, todo: seq<F>)
    requires SameShape(t, u, phi)
    ensures |Preorder(u, fuel, Map(phi, todo))| == |Preorder(t, fuel, todo)|
    ensures Fits(u, fuel, Map(phi, todo)) <==> Fits(t, fuel, todo)
    decreases fuel, |todo|
  {
    if todo != [] {
      MapHead(phi, todo);
      SameLength(t, u, phi, fuel, todo[1..]);
      if fuel > 0 {
        SameLength(t, u, phi, fuel - 1, t.kids(todo[0]));
      }
    }
  }

  lemma ThreeParts<R>(a: seq<R>, b: seq<R>, c: seq<R>, a': seq<R>, b': seq<R>, c': seq<R>)
    requires |a| == |a'| && |b| == |b'| && |c| == |c'|
    ensures a + b + c == a' + b' + c' <==> a == a' && b == b' && c == c'
  {
    if a + b + c == a' + b' + c' {
      assert a == (a + b + c)[..|a|] && a' == (a' + b' + c')[..|a|];
      assert b == (a + b + c)[|a|..|a| + |b|] && b' == (a' + b' + c')[|a|..|a| + |b|];
      assert c == (a + b + c)[|a| + |b|..] && c' == (a' + b' + c')[|a| + |b|..];
    }
  }

  lemma PreorderHead<F, R>(t: Tree<F, R>, fuel: nat, todo: seq<F>)
    ensures Preorder(t, fuel, todo) ==
            if todo == [] then [] else t.rows(todo[0]) + Below(t, fuel, todo[0]) + Preorder(t, fuel, todo[1..])
  {
  }

  lemma AllVisitedHead<F, R>(t: Tree<F, R>, fuel: nat, todo: seq<F>, p: F -> bool)
    ensures AllVisited(t, fuel, todo, p) <==>
            todo == [] ||
            (p(todo[0]) && (fuel == 0 || AllVisited(t, fuel - 1, t.kids(todo[0]), p)) && AllVisited(t, fuel, todo[1..], p))
  {
  }

  /**
    Rows match one by one over the whole walk exactly when they match in every frame visited:
    no mismatch in one directory can be made up for elsewhere.
   */
  lemma {:induction false} MatchesEverywhere<F(!new), R(!new)>(
      t: Tree<F, R>, u: Tree<F, R>, phi: F -> F, psi: R -> R, p: F -> bool, fuel: nat, todo: seq<F>)
    requires SameShape(t, u, phi)
    requires forall f :: p(f) <==> u.rows(phi(f)) == Map(psi, t.rows(f))
    ensures Preorder(u, fuel, Map(phi, todo)) == Map(psi, Preorder(t, fuel, todo)) <==>
            AllVisited(t, fuel, todo, p)
    decreases fuel, |todo|
  {
    hide Preorder, AllVisited, Fits;
    PreorderHead(t, fuel, todo);
    PreorderHead(u, fuel, Map(phi, todo));
    AllVisitedHead(t, fuel, todo, p);
    if todo != [] {
      var f := todo[0];
      MapHead(phi, todo);
      MatchesEverywhere(t, u, phi, psi, p, fuel, todo[1..]);
      SameLength(t, u, phi, fuel, todo[1..]);
      if fuel > 0 {
        MatchesEverywhere(t, u, phi, psi, p, fuel - 1, t.kids(f));
        SameLength(t, u, phi, fuel - 1, t.kids(f));
      }
      var below, after := Below(t, fuel, f), Preorder(t, fuel, todo[1..]);
      MapAppend(psi, t.rows(f) + below, after);
      MapAppend(psi, t.rows(f), below);
      ThreeParts(u.rows(phi(f)), Below(u, fuel, phi(f)), Preorder(u, fuel, Map(phi, todo[1..])),
                 Map(psi, t.rows(f)), Map(psi, below), Map(psi, after));
    }
  }

  /** The same up to order: enough that each visited frame matches up to order. */
  lemma {:induction false} MatchesUpToOrder<F(!new), R(!new)>(
      t: Tree<F, R>, u: Tree<F, R>, phi: F -> F, psi: R -> R, p: F -> bool, fuel: nat, todo: seq<F>)
    requires SameShape(t, u, phi)
    requires forall f :: p(f) ==> multiset(u.rows(phi(f))) == multiset(Map(psi, t.rows(f)))
    requires AllVisited(t, fuel, todo, p)
    ensures multiset(Preorder(u, fuel, Map(phi, todo))) == multiset(Map(psi, Preorder(t, fuel, todo)))
    decreases fuel, |todo|
  {
    if todo != [] {
      var f := todo[0];
      MapHead(phi, todo);
      MatchesUpToOrder(t, u, phi, psi, p, fuel, todo[1..]);
      if fuel > 0 {
        MatchesUpToOrder(t, u, phi, psi, p, fuel - 1, t.kids(f));
      }
      var below, after := Below(t, fuel, f), Preorder(t, fuel, todo[1..]);
      MapAppend(psi, t.rows(f) + below, after);
      MapAppend(psi, t.rows(f), below);
    }
  }

  /** What holds of every row of every frame holds of every row of the walk. */
  lemma {:induction false} EveryRow<F(!new), R>(t: Tree<F, R>, fuel: nat, todo: seq<F>, p: R -> bool)
    requires forall f, i :: 0 <= i < |t.rows(f)| ==> p(t.rows(f)[i])
    ensures forall i :: 0 <= i < |Preorder(t, fuel, todo)| ==> p(Preorder(t, fuel, todo)[i])
    decreases fuel, |todo|
  {
    if todo != [] {
      EveryRow(t, fuel, todo[1..], p);
      if fuel > 0 {
        EveryRow(t, fuel - 1, t.kids(todo[0]), p);
      }
    }
  }

  lemma {:induction false} VisitedWeaker<F(!new), R>(t: Tree<F, R>, fuel: nat, todo: seq<F>, p: F -> bool, q: F -> bool)
    requires forall f :: p(f) ==> q(f)
    requires AllVisited(t, fuel, todo, p)
    ensures AllVisited(t, fuel, todo, q)
    decreases fuel, |todo|
  {
    if todo != [] {
      VisitedWeaker(t, fuel, todo[1..], p, q);
      if fuel > 0 {
        VisitedWeaker(t, fuel - 1, t.kids(todo[0]), p, q);
      }
    }
  }

  /** A walk all of whose rows satisfy `q` visits only frames all of whose rows do. */
  lemma {:induction false} VisitedByRows<F(!new), R>(t: Tree<F, R>, fuel: nat, todo: seq<F>, q: R -> bool, p: F -> bool)
    requires forall f :: (forall i :: 0 <= i < |t.rows(f)| ==> q(t.rows(f)[i])) ==> p(f)
    requires forall i :: 0 <= i < |Preorder(t, fuel, todo)| ==> q(Preorder(t, fuel, todo)[i])
    ensures AllVisited(t, fuel, todo, p)
    decreases fuel, |todo|
  {
    hide Preorder, AllVisited;
    PreorderHead(t, fuel, todo);
    AllVisitedHead(t, fuel, todo, p);
    if todo != [] {
      var own, below, after := t.rows(todo[0]), Below(t, fuel, todo[0]), Preorder(t, fuel, todo[1..]);
      var all := Preorder(t, fuel, todo);
      assert forall i :: 0 <= i < |own| ==> own[i] == all[i];
      assert forall i :: 0 <= i < |below| ==> below[i] == all[|own| + i];
      assert forall i :: 0 <= i < |after| ==> after[i] == all[|own| + |below| + i];
      VisitedByRows(t, fuel, todo[1..], q, p);
      if fuel > 0 {
        VisitedByRows(t, fuel - 1, t.kids(todo[0]), q, p);
      }
    }
  }

  /** An invariant of the frames holds of every agenda, and what it implies of their rows, of every row. */
  lemma {:induction false} InvariantOverRuns<F(!new), R>(
      t: Tree<F, R>, inv: F -> bool, p: R -> bool, n: nat, todo: seq<F>)
    requires forall f, i :: inv(f) && 0 <= i < |t.kids(f)| ==> inv(t.kids(f)[i])
    requires forall f, i :: inv(f) && 0 <= i < |t.rows(f)| ==> p(t.rows(f)[i])
    requires forall i :: 0 <= i < |todo| ==> inv(todo[i])
    ensures forall i :: 0 <= i < |Agenda(t, n, todo)| ==> inv(Agenda(t, n, todo)[i])
    ensures forall i :: 0 <= i < |RowsAfter(t, n, todo)| ==> p(RowsAfter(t, n, todo)[i])
  {
    if n > 0 && todo != [] {
      InvariantOverRuns(t, inv, p, n - 1, Advance(t, todo));
    }
  }
}
