/**
  Mirror symmetry visit by visit, on endless trees too: after any number of visits the rows of
  the two directions mirror if and only if the directories visited so far do.
 */
module MirrorRuns {
  import opened Proto
  import opened Pair
  import opened PairTheorems
  import opened Visit
  import opened Traversal
  import opened Bounds
  import opened Walk
  import opened Mirror

  /** The frames of the first `n` visits satisfy `p`. */
  predicate FirstVisits<F, R>(t: Tree<F, R>, n: nat, todo: seq<F>, p: F -> bool) {
    n == 0 || todo == [] || (p(todo[0]) && FirstVisits(t, n - 1, Advance(t, todo), p))
  }

  lemma AdvanceMaps<F(!new), R>(t: Tree<F, R>, u: Tree<F, R>, phi: F -> F, todo: seq<F>)
    requires SameShape(t, u, phi) && todo != []
    ensures Map(phi, todo)[0] == phi(todo[0])
    ensures Advance(u, Map(phi, todo)) == Map(phi, Advance(t, todo))
  {
    MapHead(phi, todo);
    MapAppend(phi, t.kids(todo[0]), todo[1..]);
  }

  lemma TwoParts<R>(a: seq<R>, b: seq<R>, a': seq<R>, b': seq<R>)
    requires |a| == |a'|
    ensures a + b == a' + b' <==> a == a' && b == b'
  {
    if a + b == a' + b' {
      assert a == (a + b)[..|a|] && a' == (a' + b')[..|a|];
      assert b == (a + b)[|a|..] && b' == (a' + b')[|a|..];
    }
  }

  /** After any number of visits the rows match one by one exactly when they did in each of them. */
  lemma {:induction false} RunsMatch<F(!new), R(!new)>(
      t: Tree<F, R>, u: Tree<F, R>, phi: F -> F, psi: R -> R, p: F -> bool, n: nat, todo: seq<F>)
    requires SameShape(t, u, phi)
    requires forall f :: p(f) <==> u.rows(phi(f)) == Map(psi, t.rows(f))
    ensures RowsAfter(u, n, Map(phi, todo)) == Map(psi, RowsAfter(t, n, todo)) <==> FirstVisits(t, n, todo, p)
    ensures |RowsAfter(u, n, Map(phi, todo))| == |RowsAfter(t, n, todo)|
  {
    if n > 0 && todo != [] {
      var f, next := todo[0], Advance(t, todo);
      AdvanceMaps(t, u, phi, todo);
      RunsMatch(t, u, phi, psi, p, n - 1, next);
      MapAppend(psi, t.rows(f), RowsAfter(t, n - 1, next));
      TwoParts(u.rows(phi(f)), RowsAfter(u, n - 1, Map(phi, next)),
               Map(psi, t.rows(f)), Map(psi, RowsAfter(t, n - 1, next)));
    }
  }

  lemma {:induction false} RunsMatchUpToOrder<F(!new), R(!new)>(
      t: Tree<F, R>, u: Tree<F, R>, phi: F -> F, psi: R -> R, p: F -> bool, n: nat, todo: seq<F>)
    requires SameShape(t, u, phi)
    requires forall f :: p(f) ==> multiset(u.rows(phi(f))) == multiset(Map(psi, t.rows(f)))
    requires FirstVisits(t, n, todo, p)
    ensures multiset(RowsAfter(u, n, Map(phi, todo))) == multiset(Map(psi, RowsAfter(t, n, todo)))
  {
    if n > 0 && todo != [] {
      var next := Advance(t, todo);
      AdvanceMaps(t, u, phi, todo);
      RunsMatchUpToOrder(t, u, phi, psi, p, n - 1, next);
      MapAppend(psi, t.rows(todo[0]), RowsAfter(t, n - 1, next));
    }
  }

  /** A run all of whose rows satisfy `q` made only visits all of whose rows do. */
  lemma {:induction false} FirstVisitsByRows<F(!new), R>(
      t: Tree<F, R>, n: nat, todo: seq<F>, q: R -> bool, p: F -> bool)
    requires forall f :: (forall i :: 0 <= i < |t.rows(f)| ==> q(t.rows(f)[i])) ==> p(f)
    requires forall i :: 0 <= i < |RowsAfter(t, n, todo)| ==> q(RowsAfter(t, n, todo)[i])
    ensures FirstVisits(t, n, todo, p)
  {
    if n > 0 && todo != [] {
      var all, own, rest := RowsAfter(t, n, todo), t.rows(todo[0]), RowsAfter(t, n - 1, Advance(t, todo));
      assert forall i :: 0 <= i < |own| ==> own[i] == all[i];
      assert forall i :: 0 <= i < |rest| ==> rest[i] == all[|own| + i];
      FirstVisitsByRows(t, n - 1, Advance(t, todo), q, p);
    }
  }

  lemma RunRowsAreFinal(env: Env, n: nat, todo: seq<Frame>)
    ensures forall i :: 0 <= i < |RowsAfter(Trees(env), n, todo)| ==> Final(RowsAfter(Trees(env), n, todo)[i])
  {
    hide VisitRows, VisitFrames, RowsAfter, Agenda, Final;
    var inv := (f: Frame) => true;
    forall f, i | 0 <= i < |Trees(env).rows(f)|
      ensures Final(Trees(env).rows(f)[i])
    {
      VisitRowsAreFinal(env, f);
    }
    InvariantOverRuns(Trees(env), inv, Final, n, todo);
  }

  /**
    After any number of visits, on any trees, the published rows of the other direction are
    the mirrored ones with the same ids if and only if every directory visited so far mirrors.
   */
  lemma SymmetryOfRuns(env: Env, n: nat, left: VPath, right: VPath)
    ensures (Numbered(env.enc, RowsAfter(Trees(env.Swap()), n, [RootFrame(right, left)]), 0) ==
             Map(MirrorRow, Numbered(env.enc, RowsAfter(Trees(env), n, [RootFrame(left, right)]), 0))) <==>
            FirstVisits(Trees(env), n, [RootFrame(left, right)], f => FrameMirrors(env, f))
  {
    hide VisitRows, VisitFrames, FrameMirrors, RowsAfter, FirstVisits, RowOf, MirrorRow, MirrorPending;
    var t, u, root := Trees(env), Trees(env.Swap()), RootFrame(left, right);
    var p := f => FrameMirrors(env, f);
    assert Map(SwapFrame, [root]) == [RootFrame(right, left)];
    TreesHaveSameShape(env);
    forall f
      ensures p(f) <==> u.rows(SwapFrame(f)) == Map(MirrorPending, t.rows(f))
    {
      VisitRowsMirror(env, f);
    }
    RunsMatch(t, u, SwapFrame, MirrorPending, p, n, [root]);
    RunRowsAreFinal(env, n, [root]);
    RunRowsAreFinal(env.Swap(), n, [RootFrame(right, left)]);
    NumberedMirrors(env.enc, RowsAfter(t, n, [root]), RowsAfter(u, n, [RootFrame(right, left)]));
  }

  /** The same up to order and ids, if and only if every pair of every directory visited so far mirrors. */
  lemma SymmetryOfRunsUpToOrder(env: Env, n: nat, todo: seq<Frame>)
    ensures (multiset(RowsAfter(Trees(env.Swap()), n, Map(SwapFrame, todo))) ==
             multiset(MirrorRows(RowsAfter(Trees(env), n, todo)))) <==>
            FirstVisits(Trees(env), n, todo, f => FramePairsMirror(env, f))
  {
    hide VisitRows, VisitFrames, FramePairsMirror, RowsAfter, FirstVisits, MirrorPending;
    TreesHaveSameShape(env);
    var p := f => FramePairsMirror(env, f);
    forall f
      ensures p(f) ==>
                multiset(Trees(env.Swap()).rows(SwapFrame(f))) == multiset(Map(MirrorPending, Trees(env).rows(f)))
    {
      VisitRowsMirror(env, f);
    }
    if FirstVisits(Trees(env), n, todo, p) {
      RunsMatchUpToOrder(Trees(env), Trees(env.Swap()), SwapFrame, MirrorPending, p, n, todo);
    }
    if multiset(RowsAfter(Trees(env.Swap()), n, Map(SwapFrame, todo))) == multiset(MirrorRows(RowsAfter(Trees(env), n, todo))) {
      OnlyIfRunPairsMirror(env, n, todo, p);
    }
  }

  lemma OnlyIfRunPairsMirror(env: Env, n: nat, todo: seq<Frame>, p: Frame -> bool)
    requires forall f :: p(f) == FramePairsMirror(env, f)
    requires multiset(RowsAfter(Trees(env.Swap()), n, Map(SwapFrame, todo))) == multiset(MirrorRows(RowsAfter(Trees(env), n, todo)))
    ensures FirstVisits(Trees(env), n, todo, p)
  {
    hide VisitRows, VisitFrames, FramePairsMirror, RowsAfter, FirstVisits, MirrorPending, AppearsIn;
    var rows, back := RowsAfter(Trees(env), n, todo), RowsAfter(Trees(env.Swap()), n, Map(SwapFrame, todo));
    RunRowsAppear(env.Swap(), n, Map(SwapFrame, todo));
    var q := row => AppearsIn(env.Swap(), MirrorPending(row));
    forall i | 0 <= i < |rows|
      ensures q(rows[i])
    {
      assert MirrorRows(rows)[i] in multiset(MirrorRows(rows));
      assert MirrorPending(rows[i]) in back;
    }
    forall f | forall i :: 0 <= i < |Trees(env).rows(f)| ==> q(Trees(env).rows(f)[i])
      ensures p(f)
    {
      assert forall i :: 0 <= i < |VisitRows(env, f)| ==> q(VisitRows(env, f)[i]);
      PairsMirrorIfRowsDo(env, f);
    }
    FirstVisitsByRows(Trees(env), n, todo, q, p);
  }

  lemma RunRowsAppear(env: Env, n: nat, todo: seq<Frame>)
    ensures forall i :: 0 <= i < |RowsAfter(Trees(env), n, todo)| ==>
              AppearsIn(env, RowsAfter(Trees(env), n, todo)[i])
  {
    hide VisitRows, VisitFrames, RowsAfter, Agenda;
    var inv, a := (f: Frame) => true, row => AppearsIn(env, row);
    forall f, i | 0 <= i < |Trees(env).rows(f)|
      ensures a(Trees(env).rows(f)[i])
    {
      assert Trees(env).rows(f)[i] in VisitRows(env, f);
    }
    InvariantOverRuns(Trees(env), inv, a, n, todo);
  }
}
