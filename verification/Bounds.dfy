/** The engine's trees: what holds of every walk over two providers. */
module Bounds {
  import opened Proto
  import opened Pair
  import opened Listing
  import opened Key
  import opened Visit
  import opened Traversal
  import opened Multisets

  /** The pair of trees a comparison walks. */
  function Trees(env: Env): Tree<Frame, PendingRow> {
    Tree(f => VisitRows(env, f), f => VisitFrames(env, f))
  }

  // ----- the depth limit makes every tree finite, and bounds the visits -----

  /** Every frame of a visit comes from one of its items. */
  lemma {:induction false} FrameHasItem(opts: CompareOptions, c: Collided, depth: U32, items: seq<MergeItem>, g: Frame)
    returns (item: MergeItem)
    requires g in AllFrames(opts, c, depth, items)
    ensures item in items && g in ItemFrames(opts, c, depth, item)
  {
    if g in ItemFrames(opts, c, depth, items[0]) {
      item := items[0];
    } else {
      item := FrameHasItem(opts, c, depth, items[1..], g);
    }
  }

  lemma ItemDepth(opts: CompareOptions, c: Collided, depth: U32, items: seq<MergeItem>, g: Frame)
    requires g in AllFrames(opts, c, depth, items)
    ensures g.depth == SaturatingSucc(depth) && DescendsBelow(opts, depth)
  {
    var item := FrameHasItem(opts, c, depth, items, g);
  }

  lemma ChildDepth(env: Env, f: Frame, g: Frame)
    requires g in VisitFrames(env, f)
    ensures g.depth == SaturatingSucc(f.depth) && DescendsBelow(env.opts, f.depth)
  {
    hide AllFrames, Unique, Merge, Collisions, Indexed, ListVisible;
    var p := PairedOf(env, f);
    ItemDepth(env.opts, p.Clashes(), f.depth, p.Items(), g);
  }

  /** A limit keeps its word for every depth if and only if it is below `u32::MAX`, which limits nothing. */
  lemma LimitIsKept(opts: CompareOptions, limit: U32)
    requires opts.maxDepth == Some(limit)
    ensures (forall depth: U32 :: DescendsBelow(opts, depth) ==> depth + 1 <= limit) <==> limit < U32_MAX
    ensures limit == U32_MAX ==> DescendsBelow(opts, U32_MAX)
  {
    if limit == U32_MAX {
      var deepest: U32 := U32_MAX;
      assert DescendsBelow(opts, deepest);
    }
  }

  lemma {:induction false} LimitFits(env: Env, limit: U32, fuel: nat, todo: seq<Frame>)
    requires env.opts.maxDepth == Some(limit) && limit < U32_MAX
    requires forall f :: f in todo ==> f.depth <= limit <= f.depth + fuel
    ensures Fits(Trees(env), fuel, todo)
    decreases fuel, |todo|
  {
    hide VisitFrames, VisitRows;
    if todo != [] {
      var f := todo[0];
      var kids := VisitFrames(env, f);
      forall g | g in kids
        ensures fuel > 0 && g.depth <= limit <= g.depth + (fuel - 1)
      {
        ChildDepth(env, f, g);
      }
      if fuel == 0 {
        HasMember(kids);
      } else {
        LimitFits(env, limit, fuel - 1, kids);
      }
      LimitFits(env, limit, fuel, todo[1..]);
    }
  }

  function Pow(c: nat, n: nat): nat {
    if n == 0 then 1 else c * Pow(c, n - 1)
  }

  /** The sum of `c^i` for `i` from 0 to `n`. */
  function SumOfPowers(c: nat, n: nat): nat {
    if n == 0 then Pow(c, 0) else SumOfPowers(c, n - 1) + Pow(c, n)
  }

  lemma {:induction false} SumOfPowersStep(c: nat, n: nat)
    ensures SumOfPowers(c, n + 1) == 1 + c * SumOfPowers(c, n)
  {
    if n > 0 {
      SumOfPowersStep(c, n - 1);
      Factor(c, SumOfPowers(c, n - 1), Pow(c, n));
    }
  }

  lemma Factor(c: nat, a: nat, b: nat)
    ensures c * a + c * b == c * (a + b)
  {
  }

  lemma {:induction false} FramesWithinLeft(opts: CompareOptions, c: Collided, depth: U32, items: seq<MergeItem>)
    requires opts.descendOrphans != Some(Right)
    ensures |AllFrames(opts, c, depth, items)| <= |LeftOf(items)|
  {
    if items != [] {
      FramesWithinLeft(opts, c, depth, items[1..]);
    }
  }

  lemma {:induction false} FramesWithinRight(opts: CompareOptions, c: Collided, depth: U32, items: seq<MergeItem>)
    requires opts.descendOrphans != Some(Left)
    ensures |AllFrames(opts, c, depth, items)| <= |RightOf(items)|
  {
    if items != [] {
      FramesWithinRight(opts, c, depth, items[1..]);
    }
  }

  /** A visit descends into no more directories than one capped listing holds. */
  lemma FanOut(env: Env, f: Frame)
    ensures |VisitFrames(env, f)| <= env.cap
  {
    if BothListed(env, f) {
      var p := PairedOf(env, f);
      MergeKeepsBothSides(Unique(p.LeftIndex()), Unique(p.RightIndex()));
      UniqueIsNoLonger(p.enc, p.lefts, p.sides);
      UniqueIsNoLonger(p.enc, p.rights, p.sides);
      if env.opts.descendOrphans != Some(Right) {
        FramesWithinLeft(env.opts, p.Clashes(), f.depth, p.Items());
      } else {
        FramesWithinRight(env.opts, p.Clashes(), f.depth, p.Items());
      }
    }
  }

  lemma {:induction false} VisitsBounded(env: Env, fuel: nat, todo: seq<Frame>)
    ensures Visits(Trees(env), fuel, todo) <= |todo| * SumOfPowers(env.cap, fuel)
    decreases fuel, |todo|
  {
    hide VisitFrames, VisitRows;
    if todo != [] {
      var cap, kids := env.cap, VisitFrames(env, todo[0]);
      VisitsBounded(env, fuel, todo[1..]);
      FanOut(env, todo[0]);
      if fuel == 0 {
        Distribute(|todo|, SumOfPowers(cap, 0));
      } else {
        VisitsBounded(env, fuel - 1, kids);
        Monotone(|kids|, cap, SumOfPowers(cap, fuel - 1));
        SumOfPowersStep(cap, fuel - 1);
        Distribute(|todo|, SumOfPowers(cap, fuel));
      }
    }
  }

  lemma Distribute(n: nat, s: nat)
    requires n > 0
    ensures n * s == s + (n - 1) * s
  {
  }

  lemma Monotone(a: nat, b: nat, s: nat)
    requires a <= b
    ensures a * s <= b * s
  {
  }

  /**
    Termination with a bound: under a depth limit the walk from one root frame is finite
    whatever the providers answer, and visits at most the sum of `cap^i`, `i <= limit`,
    directories before nothing is left.
   */
  lemma DepthLimitBoundsTheWalk(env: Env, limit: U32, root: Frame)
    requires env.opts.maxDepth == Some(limit) && limit < U32_MAX && root.depth == 0
    ensures Fits(Trees(env), limit, [root])
    ensures exists n: nat ::
              && n <= SumOfPowers(env.cap, limit)
              && Agenda(Trees(env), n, [root]) == []
              && RowsAfter(Trees(env), n, [root]) == Preorder(Trees(env), limit, [root])
  {
    hide VisitFrames, VisitRows;
    LimitFits(env, limit, limit, [root]);
    VisitsBounded(env, limit, [root]);
    StackRefinesRecursion(Trees(env), limit, [root]);
  }
}
