/**
  The walk stays inside: every frame on the stack sits exactly `depth` segments below its
  root, nothing of an excluded subtree is listed, named or descended into, and no row lies
  deeper than the limit allows.
 */
module Containment {
  import opened Proto
  import opened Key
  import opened Pair
  import opened PairTheorems
  import opened Listing
  import opened Visit
  import opened Traversal
  import opened Bounds
  import opened Classification
  import opened Walk

  // ----- every entry of a visit was listed -----

  lemma {:induction false} StubsMember(rows: seq<PendingRow>, i: nat)
    requires i < |rows|
    ensures rows[i].left.Some? ==> Stub(rows[i].left.value) in LeftStubs(rows)
    ensures rows[i].right.Some? ==> Stub(rows[i].right.value) in RightStubs(rows)
  {
    if i > 0 {
      StubsMember(rows[1..], i - 1);
    }
  }

  lemma InMap<A, B>(f: A -> B, s: seq<A>, y: B) returns (x: A)
    requires y in multiset(Map(f, s))
    ensures x in s && f(x) == y
  {
    assert y in Map(f, s);
    var i :| 0 <= i < |s| && Map(f, s)[i] == y;
    x := s[i];
  }

  /** A row's left entry has the path of one of the visible left entries; the right's, of a right one. */
  lemma RowsNameListedEntries(env: Env, f: Frame, i: nat)
    requires BothListed(env, f) && i < |VisitRows(env, f)|
    ensures var row := VisitRows(env, f)[i];
            && (row.left.Some? ==> exists e :: e in LeftListing(env, f).entries && e.path == row.left.value.path)
            && (row.right.Some? ==> exists e :: e in RightListing(env, f).entries && e.path == row.right.value.path)
  {
    hide VisitRows, LeftStubs, RightStubs, ListVisible;
    var rows := VisitRows(env, f);
    VisitConservesEntries(env, f);
    StubsMember(rows, i);
    if rows[i].left.Some? {
      assert Stub(rows[i].left.value) in multiset(LeftStubs(rows));
      var e := InMap(Stub, LeftListing(env, f).entries, Stub(rows[i].left.value));
      assert e.path == Stub(e).path == rows[i].left.value.path;
    }
    if rows[i].right.Some? {
      assert Stub(rows[i].right.value) in multiset(RightStubs(rows));
      var e := InMap(Stub, RightListing(env, f).entries, Stub(rows[i].right.value));
      assert e.path == Stub(e).path == rows[i].right.value.path;
    }
  }

  /** A descended frame is made of visible entries of the visited directory. */
  lemma FramesNameListedEntries(env: Env, f: Frame, g: Frame)
    requires g in VisitFrames(env, f)
    ensures BothListed(env, f)
    ensures g.left.Some? || g.right.Some?
    ensures g.left.Some? ==> g.left.value in LeftListing(env, f).entries && g.left.value.kind == Dir
    ensures g.right.Some? ==> g.right.value in RightListing(env, f).entries && g.right.value.kind == Dir
  {
    hide AllFrames, Unique, Merge, Collisions, CollidedAmong, Indexed, ListVisible, SidesFor, Holders, KeyFor, DescendsBelow;
    var p := PairedOf(env, f);
    var item := FrameHasItem(env.opts, p.Clashes(), f.depth, p.Items(), g);
    UniqueSpec(p.enc, p.lefts, p.sides);
    UniqueSpec(p.enc, p.rights, p.sides);
    MergePlaces(Unique(p.LeftIndex()), Unique(p.RightIndex()), item);
  }

  // ----- the invariant of one frame -----

  /** `path` lies exactly `level` segments below `root`, outside every excluded subtree. */
  predicate Inside(env: Env, root: VPath, path: VPath, level: nat) {
    && IsDescendant(root, path)
    && |path.segments| == |root.segments| + level
    && !Excluded(env.excluded, path)
  }

  function Saturated(level: nat): U32 {
    if level > U32_MAX then U32_MAX else level
  }

  /** The frame sits `level` segments below the roots, and the depth limit allows it. */
  predicate FrameAt(env: Env, left: VPath, right: VPath, f: Frame, level: nat) {
    && (f.left.Some? || f.right.Some?)
    && (f.left.Some? ==> Inside(env, left, f.left.value.path, level) && f.left.value.kind == Dir)
    && (f.right.Some? ==> Inside(env, right, f.right.value.path, level) && f.right.value.kind == Dir)
    && f.depth == Saturated(level)
    && (env.opts.maxDepth.Some? && env.opts.maxDepth.value < U32_MAX ==> level <= env.opts.maxDepth.value)
  }

  /** The row's entries lie below the roots, at most one level below the limit, and outside the excluded. */
  predicate RowAtMost(env: Env, left: VPath, right: VPath, row: PendingRow, level: nat) {
    && (row.left.Some? ==>
          Inside(env, left, row.left.value.path, level) || Inside(env, left, row.left.value.path, level + 1))
    && (row.right.Some? ==>
          Inside(env, right, row.right.value.path, level) || Inside(env, right, row.right.value.path, level + 1))
  }

  lemma ChildInside(env: Env, root: VPath, dir: VPath, path: VPath, level: nat)
    requires Inside(env, root, dir, level)
    requires DirectChild(dir, path) && !Excluded(env.excluded, path)
    ensures Inside(env, root, path, level + 1)
  {
    assert root.segments <= dir.segments <= path.segments;
  }

  lemma KidsInside(env: Env, left: VPath, right: VPath, f: Frame, level: nat, g: Frame)
    requires FrameAt(env, left, right, f, level)
    requires g in VisitFrames(env, f)
    ensures FrameAt(env, left, right, g, level + 1)
  {
    hide VisitFrames, Inside, DirectChild, Excluded, ListAll, Retain;
    FramesNameListedEntries(env, f, g);
    ChildDepth(env, f, g);
    if g.left.Some? {
      ChildInside(env, left, f.left.value.path, g.left.value.path, level);
    }
    if g.right.Some? {
      ChildInside(env, right, f.right.value.path, g.right.value.path, level);
    }
  }

  lemma RowsInside(env: Env, left: VPath, right: VPath, f: Frame, level: nat, i: nat)
    requires FrameAt(env, left, right, f, level)
    requires i < |VisitRows(env, f)|
    ensures RowAtMost(env, left, right, VisitRows(env, f)[i], level)
  {
    hide Inside, DirectChild, Excluded, ListAll, Retain, PairedRows;
    if BothListed(env, f) {
      RowsNameListedEntries(env, f, i);
      var row := VisitRows(env, f)[i];
      if row.left.Some? {
        var e :| e in LeftListing(env, f).entries && e.path == row.left.value.path;
        ChildInside(env, left, f.left.value.path, e.path, level);
      }
      if row.right.Some? {
        var e :| e in RightListing(env, f).entries && e.path == row.right.value.path;
        ChildInside(env, right, f.right.value.path, e.path, level);
      }
    }
  }

  // ----- over every reachable state -----

  ghost predicate FrameInside(env: Env, left: VPath, right: VPath, f: Frame) {
    exists level: nat :: FrameAt(env, left, right, f, level)
  }

  ghost predicate RowInside(env: Env, left: VPath, right: VPath, row: PendingRow) {
    exists level: nat ::
      && RowAtMost(env, left, right, row, level)
      && (env.opts.maxDepth.Some? && env.opts.maxDepth.value < U32_MAX ==> level <= env.opts.maxDepth.value)
  }

  /**
    Containment over every run: from two roots that are not excluded, after any number of
    visits and whatever the providers answer, every frame waiting and every row emitted is
    inside.
   */
  lemma EveryRunStaysInside(env: Env, left: VPath, right: VPath, n: nat)
    requires !RootExcluded(env, left, right)
    ensures var todo := [RootFrame(left, right)];
            && (forall i :: 0 <= i < |Agenda(Trees(env), n, todo)| ==>
                  FrameInside(env, left, right, Agenda(Trees(env), n, todo)[i]))
            && (forall i :: 0 <= i < |RowsAfter(Trees(env), n, todo)| ==>
                  RowInside(env, left, right, RowsAfter(Trees(env), n, todo)[i]))
  {
    hide VisitRows, VisitFrames, Agenda, RowsAfter, RowAtMost, FrameAt;
    var inv := f => FrameInside(env, left, right, f);
    var p := row => RowInside(env, left, right, row);
    forall f, i | inv(f) && 0 <= i < |Trees(env).kids(f)|
      ensures inv(Trees(env).kids(f)[i])
    {
      var level: nat :| FrameAt(env, left, right, f, level);
      assert Trees(env).kids(f)[i] in VisitFrames(env, f);
      KidsInside(env, left, right, f, level, Trees(env).kids(f)[i]);
    }
    forall f, i | inv(f) && 0 <= i < |Trees(env).rows(f)|
      ensures p(Trees(env).rows(f)[i])
    {
      var level: nat :| FrameAt(env, left, right, f, level);
      RowsInside(env, left, right, f, level, i);
      LevelWithinLimit(env, left, right, f, level);
    }
    RootIsInside(env, left, right);
    InvariantOverRuns(Trees(env), inv, p, n, [RootFrame(left, right)]);
  }

  lemma LevelWithinLimit(env: Env, left: VPath, right: VPath, f: Frame, level: nat)
    requires FrameAt(env, left, right, f, level)
    ensures env.opts.maxDepth.Some? && env.opts.maxDepth.value < U32_MAX ==> level <= env.opts.maxDepth.value
  {
  }

  lemma RootIsInside(env: Env, left: VPath, right: VPath)
    requires !RootExcluded(env, left, right)
    ensures FrameInside(env, left, right, RootFrame(left, right))
  {
    assert FrameAt(env, left, right, RootFrame(left, right), 0);
  }

  /** A published row shows the entries of a row that is inside. */
  ghost predicate Published(env: Env, left: VPath, right: VPath, row: CompareRow) {
    exists p: PendingRow :: p.left == row.left && p.right == row.right && RowInside(env, left, right, p)
  }

  lemma PublishedFrom(env: Env, left: VPath, right: VPath, p: PendingRow, id: nat)
    requires RowInside(env, left, right, p)
    ensures Published(env, left, right, RowOf(env.enc, p, id))
  {
    hide RowInside;
    assert p.left == RowOf(env.enc, p, id).left && p.right == RowOf(env.enc, p, id).right;
  }

  /** The same of the walk itself, in every reachable state. */
  lemma WalkStaysInside(w: Walk, left: VPath, right: VPath)
    requires w.Valid() && w.root == RootFrame(left, right) && !RootExcluded(w.env, left, right)
    ensures forall i :: 0 <= i < |w.delivered| ==> Published(w.env, left, right, w.delivered[i])
    ensures forall i :: 0 <= i < |w.pending| ==> Published(w.env, left, right, w.pending[i])
    ensures forall i :: 0 <= i < |w.stack| ==> FrameInside(w.env, left, right, w.stack[i])
  {
    hide VisitRows, VisitFrames, Agenda, RowsAfter, FrameInside, Published, RootExcluded, Numbered, Reversed;
    RowsArePublished(w.env, left, right, w.visits, w.delivered);
    if w.pending != [] {
      PendingStaysInside(w, left, right);
    }
    if w.stack != [] {
      StackStaysInside(w, left, right);
    }
  }

  lemma PendingStaysInside(w: Walk, left: VPath, right: VPath)
    requires w.Valid() && !w.finished && w.root == RootFrame(left, right) && !RootExcluded(w.env, left, right)
    ensures forall i :: 0 <= i < |w.pending| ==> Published(w.env, left, right, w.pending[i])
  {
    hide VisitRows, VisitFrames, Agenda, RowsAfter, Published, RootExcluded, Numbered, Reversed;
    var all := w.delivered + w.pending;
    if w.OnCourse() {
      RowsArePublished(w.env, left, right, w.visits, all);
    } else {
      RowsArePublished(w.env, left, right, w.visits + 1, all);
    }
    assert forall i :: 0 <= i < |w.pending| ==> w.pending[i] == all[|w.delivered| + i];
  }

  lemma StackStaysInside(w: Walk, left: VPath, right: VPath)
    requires w.Valid() && !w.finished && w.root == RootFrame(left, right) && !RootExcluded(w.env, left, right)
    ensures forall i :: 0 <= i < |w.stack| ==> FrameInside(w.env, left, right, w.stack[i])
  {
    hide VisitRows, VisitFrames, Agenda, RowsAfter, RowInside, FrameInside, RootExcluded, Numbered;
    EveryRunStaysInside(w.env, left, right, w.visits);
    forall i | 0 <= i < |w.stack|
      ensures FrameInside(w.env, left, right, w.stack[i])
    {
      assert w.stack[i] == Reversed(w.stack)[|w.stack| - 1 - i];
    }
  }

  lemma RowsArePublished(env: Env, left: VPath, right: VPath, n: nat, rows: seq<CompareRow>)
    requires !RootExcluded(env, left, right)
    requires rows <= Numbered(env.enc, RowsAfter(Trees(env), n, [RootFrame(left, right)]), 0)
    ensures forall i :: 0 <= i < |rows| ==> Published(env, left, right, rows[i])
  {
    hide VisitRows, VisitFrames, Agenda, RowsAfter, RowInside, FrameInside, RowOf, Published;
    EveryRunStaysInside(env, left, right, n);
    var all := RowsAfter(Trees(env), n, [RootFrame(left, right)]);
    forall i | 0 <= i < |rows|
      ensures Published(env, left, right, rows[i])
    {
      PublishedFrom(env, left, right, all[i], 0 + i + 1);
    }
  }
}
