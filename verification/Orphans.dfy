/**
  `descend_orphans` only adds: the rows without it are what remains of the rows with it once
  those of the descended orphans are deleted, and each deleted row comes from a directory the
  walk announced as existing on the named side only.
 */
module Orphans {
  import opened Proto
  import opened Vfs
  import opened Key
  import opened Cascade
  import opened Pair
  import opened Listing
  import opened Visit
  import opened Traversal
  import opened Bounds
  import opened Extension
  import opened Containment
  import opened Classification

  function Descending(env: Env, side: Option<Side>): Env {
    env.(opts := env.opts.(descendOrphans := side))
  }

  /** A frame that descends an orphan: one of its sides is missing. */
  predicate OneSided(f: Frame) {
    f.left.None? || f.right.None?
  }

  // ----- the option does not touch the rows of a directory -----

  lemma HydrateIgnoresOption(env: Env, side: Option<Side>, l: Known, r: Known)
    ensures Hydrate(Descending(env, side), l, r) == Hydrate(env, l, r)
  {
    hide Asked;
  }

  lemma RowForIgnoresOption(env: Env, side: Option<Side>, l: Entry, r: Entry)
    ensures RowFor(Descending(env, side), l, r) == RowFor(env, l, r)
  {
  }

  lemma PairRowIgnoresOption(env: Env, side: Option<Side>, l: Entry, r: Entry)
    ensures PairRow(Descending(env, side), l, r) == PairRow(env, l, r)
  {
    hide Hydrate, RowFor;
    HydrateIgnoresOption(env, side, Known(l, false), Known(r, false));
    forall l1, r1
      ensures RowFor(Descending(env, side), l1, r1) == RowFor(env, l1, r1)
    {
      RowForIgnoresOption(env, side, l1, r1);
    }
  }

  lemma VisitRowsIgnoreOption(env: Env, side: Option<Side>, f: Frame)
    ensures VisitRows(Descending(env, side), f) == VisitRows(env, f)
    ensures BothListed(Descending(env, side), f) <==> BothListed(env, f)
    ensures BothListed(env, f) ==> PairedOf(Descending(env, side), f) == PairedOf(env, f)
  {
    hide Drain, Retain, PairRow, Indexed, Unique, Collisions, CollidedAmong, Merge;
    var with := Descending(env, side);
    assert LeftListing(with, f) == LeftListing(env, f);
    assert RightListing(with, f) == RightListing(env, f);
    if BothListed(env, f) {
      var p := PairedOf(env, f);
      forall item
        ensures ItemRow(with, p.Clashes(), item) == ItemRow(env, p.Clashes(), item)
      {
        if item.Both? {
          PairRowIgnoresOption(env, side, item.l, item.r);
        }
      }
      assert ItemRows(with, p.Clashes(), p.Items()) == ItemRows(env, p.Clashes(), p.Items());
    }
  }

  // ----- it only adds one-sided frames -----

  lemma {:induction false} SkippingAppend(a: seq<Frame>, b: seq<Frame>)
    ensures Skipping(a + b, OneSided) == Skipping(a, OneSided) + Skipping(b, OneSided)
  {
    if a == [] {
      assert a + b == b;
    } else {
      assert (a + b)[1..] == a[1..] + b;
      SkippingAppend(a[1..], b);
    }
  }

  lemma ItemFramesSkip(opts: CompareOptions, side: Option<Side>, c: Collided, depth: U32, item: MergeItem)
    ensures ItemFrames(opts.(descendOrphans := None), c, depth, item)
         == Skipping(ItemFrames(opts.(descendOrphans := side), c, depth, item), OneSided)
  {
  }

  lemma {:induction false} AllFramesSkip(opts: CompareOptions, side: Option<Side>, c: Collided, depth: U32, items: seq<MergeItem>)
    ensures AllFrames(opts.(descendOrphans := None), c, depth, items)
         == Skipping(AllFrames(opts.(descendOrphans := side), c, depth, items), OneSided)
  {
    if items != [] {
      hide Skipping, ItemFrames;
      AllFramesSkip(opts, side, c, depth, items[1..]);
      ItemFramesSkip(opts, side, c, depth, items[0]);
      SkippingAppend(ItemFrames(opts.(descendOrphans := side), c, depth, items[0]),
                     AllFrames(opts.(descendOrphans := side), c, depth, items[1..]));
    }
  }

  lemma VisitFramesSkip(env: Env, side: Option<Side>, f: Frame)
    ensures VisitFrames(Descending(env, None), f) == Skipping(VisitFrames(Descending(env, side), f), OneSided)
  {
    hide ListVisible, SidesFor, AllFrames, Skipping, Indexed, Unique, Collisions, CollidedAmong, Merge, VisitRows;
    VisitRowsIgnoreOption(env, None, f);
    VisitRowsIgnoreOption(env, side, f);
    SkippingHead<Frame>([], OneSided);
    if BothListed(env, f) {
      var p := PairedOf(env, f);
      AllFramesSkip(env.opts, side, p.Clashes(), f.depth, p.Items());
    }
  }

  /** Below an orphan there are only orphans of the same side. */
  lemma KidsOfOrphans(env: Env, f: Frame, g: Frame)
    requires g in VisitFrames(env, f)
    ensures f.left.None? ==> g.left.None?
    ensures f.right.None? ==> g.right.None?
  {
    hide VisitFrames;
    FramesNameListedEntries(env, f, g);
  }

  lemma OptionExtendsTheWalk(env: Env, side: Option<Side>)
    ensures Extends(Trees(Descending(env, None)), Trees(Descending(env, side)), OneSided)
  {
    hide VisitRows, VisitFrames, Skipping;
    var t, u := Trees(Descending(env, None)), Trees(Descending(env, side));
    forall f
      ensures u.rows(f) == t.rows(f) && t.kids(f) == Skipping(u.kids(f), OneSided)
    {
      VisitRowsIgnoreOption(env, None, f);
      VisitRowsIgnoreOption(env, side, f);
      VisitFramesSkip(env, side, f);
    }
    forall f, i | OneSided(f) && 0 <= i < |u.kids(f)|
      ensures OneSided(u.kids(f)[i])
    {
      assert u.kids(f)[i] in VisitFrames(Descending(env, side), f);
      KidsOfOrphans(Descending(env, side), f, u.kids(f)[i]);
    }
  }

  // ----- each orphan frame is announced by its row -----

  predicate OnSide(side: Side, f: Frame) {
    match side
    case Left => f.left.Some? && f.right.None?
    case Right => f.right.Some? && f.left.None?
    case UnknownSide => false
  }

  /** The presence row of a directory that exists on `side` only, and the frame that descends it. */
  predicate Announces(side: Side, row: PendingRow, f: Frame) {
    && OnSide(side, f)
    && row == Judged(if side == Left then ONLY_LEFT else ONLY_RIGHT, f.left, f.right)
    && (side == Left ==> f.left.value.kind == Dir)
    && (side == Right ==> f.right.value.kind == Dir)
  }

  lemma ItemAnnounces(env: Env, side: Side, c: Collided, depth: U32, item: MergeItem, g: Frame)
    requires env.opts.descendOrphans == Some(side)
    requires g in ItemFrames(env.opts, c, depth, item) && OneSided(g)
    ensures Announces(side, ItemRow(env, c, item), g)
  {
    hide PairRow;
  }

  lemma OrphansAreAnnounced(env: Env, side: Side, f: Frame, g: Frame) returns (i: nat)
    requires env.opts.descendOrphans == Some(side)
    requires g in VisitFrames(env, f) && OneSided(g)
    ensures i < |VisitRows(env, f)| && Announces(side, VisitRows(env, f)[i], g)
  {
    hide ListVisible, SidesFor, AllFrames, Indexed, Unique, Collisions, CollidedAmong, Merge, ItemRow, ItemFrames, Announces;
    var p := PairedOf(env, f);
    var item := FrameHasItem(env.opts, p.Clashes(), f.depth, p.Items(), g);
    ItemAnnounces(env, side, p.Clashes(), f.depth, item, g);
    var n :| 0 <= n < |p.Items()| && p.Items()[n] == item;
    i := |ClashRows(p.LeftIndex(), p.RightIndex())| + n;
  }

  lemma AnnouncedInTheWalk(env: Env, side: Side, a: (PendingRow, Frame) -> bool)
    requires env.opts.descendOrphans == Some(side)
    requires forall row, f :: a(row, f) == Announces(side, row, f)
    ensures Announced(Trees(env), OneSided, a)
  {
    hide VisitRows, VisitFrames, Announces, OneSided;
    var t := Trees(env);
    forall f, k | 0 <= k < |t.kids(f)| && OneSided(t.kids(f)[k])
      ensures Announcer(t, f, t.kids(f)[k], a)
    {
      assert t.kids(f)[k] in VisitFrames(env, f);
      var i := OrphansAreAnnounced(env, side, f, t.kids(f)[k]);
      assert a(t.rows(f)[i], t.kids(f)[k]);
    }
  }

  // ----- what an orphan's rows are -----

  /** The row is about an entry directly inside the orphan directory `f` descends. */
  predicate StrictlyUnder(side: Side, f: Frame, row: PendingRow)
    requires OnSide(side, f)
  {
    match side
    case Left => row.left.Some? && DirectChild(f.left.value.path, row.left.value.path)
    case Right => row.right.Some? && DirectChild(f.right.value.path, row.right.value.path)
    case UnknownSide => false
  }

  /** The row carries no entry of the other side. */
  predicate OtherSideEmpty(side: Side, row: PendingRow) {
    (side == Left ==> row.right.None?) && (side == Right ==> row.left.None?)
  }

  /** The row is the failed listing of the orphan directory itself. */
  predicate ItsOwnError(f: Frame, row: PendingRow) {
    row.Flagged? && row.verdict == Error && row.left == f.left && row.right == f.right
  }

  /**
    An orphan's rows never show the other side. They lie strictly under the orphan if and only
    if its listing succeeded; otherwise the one row names the orphan directory itself.
   */
  lemma OrphanRows(env: Env, side: Side, f: Frame, i: nat)
    requires OnSide(side, f) && i < |VisitRows(env, f)|
    ensures var row := VisitRows(env, f)[i];
            && OtherSideEmpty(side, row)
            && (StrictlyUnder(side, f, row) <==> BothListed(env, f))
            && (ItsOwnError(f, row) <==> !BothListed(env, f))
  {
    hide ListAll, Retain, PairedRows, DirectChild, Excluded;
    if BothListed(env, f) {
      RowsNameListedEntries(env, f, i);
      OneSideNonempty(env, f, i);
      NotItsOwnChild(f);
    } else {
      NotItsOwnChild(f);
    }
  }

  lemma NotItsOwnChild(f: Frame)
    ensures f.left.Some? ==> !DirectChild(f.left.value.path, f.left.value.path)
    ensures f.right.Some? ==> !DirectChild(f.right.value.path, f.right.value.path)
  {
  }

  lemma OneSideNonempty(env: Env, f: Frame, i: nat)
    requires BothListed(env, f) && i < |VisitRows(env, f)|
    ensures VisitRows(env, f)[i].left.Some? || VisitRows(env, f)[i].right.Some?
  {
    hide ListVisible, SidesFor, PairedRows, About, Classified;
    var k := EveryRowIsClassified(env, PairedOf(env, f), i);
    AboutSomeone(PairedOf(env, f), VisitRows(env, f)[i], k);
  }

  lemma AboutSomeone(p: Paired, row: PendingRow, k: Bytes)
    requires About(p, row, k)
    ensures row.left.Some? || row.right.Some?
  {
  }

  /** An unreadable orphan: the option adds one row, and it names the orphan, not something under it. */
  lemma UnreadableOrphanNamesItself(env: Env, e: Entry, depth: U32)
    requires env.left.list(e.path) == Unlistable
    ensures VisitRows(env, Frame(Some(e), None, depth))
         == [Flagged(Some(e), None, Error, Presence, Unreadable, Left)]
  {
  }

  // ----- the theorem -----

  /** The walk with the option on `side`, each row marked with whether the option added it. */
  function MarkedWalk(env: Env, side: Side, fuel: nat, root: Frame): seq<(PendingRow, bool)> {
    Tagged(Trees(Descending(env, Some(side))), fuel, [root], OneSided)
  }

  /**
    `descend_orphans` only adds: the walk with the option, minus the rows marked as added, is
    the walk without it, in the same order.
   */
  lemma DescendOrphansOnlyAdds(env: Env, side: Side, fuel: nat, root: Frame)
    requires !OneSided(root)
    ensures Rows(MarkedWalk(env, side, fuel, root)) == Preorder(Trees(Descending(env, Some(side))), fuel, [root])
    ensures Unmarked(MarkedWalk(env, side, fuel, root)) == Preorder(Trees(Descending(env, None)), fuel, [root])
  {
    hide VisitRows, VisitFrames, Tagged, Unmarked, Preorder, Extends;
    var t, u := Trees(Descending(env, None)), Trees(Descending(env, Some(side)));
    OptionExtendsTheWalk(env, Some(side));
    TaggedRows(u, fuel, [root], OneSided);
    OnlyAdds(t, u, fuel, [root], OneSided);
    assert Skipping([root], OneSided) == [root];
  }

  /**
    Each added row is a row of some directory that a row of the same walk announces as
    existing on `side` only; it shows nothing of the other side. It lies strictly under that
    directory if and only if the directory could be listed, and is its own error otherwise.
   */
  lemma AddedRowsLieUnderOrphans(env: Env, side: Side, fuel: nat, root: Frame, i: nat)
      returns (orphan: Frame, j: nat)
    requires !OneSided(root)
    requires i < |MarkedWalk(env, side, fuel, root)| && MarkedWalk(env, side, fuel, root)[i].1
    ensures j < |Rows(MarkedWalk(env, side, fuel, root))|
    ensures Announces(side, Rows(MarkedWalk(env, side, fuel, root))[j], orphan)
    ensures var row := MarkedWalk(env, side, fuel, root)[i].0;
            && OtherSideEmpty(side, row)
            && (StrictlyUnder(side, orphan, row) <==> BothListed(Descending(env, Some(side)), orphan))
            && (ItsOwnError(orphan, row) <==> !BothListed(Descending(env, Some(side)), orphan))
  {
    hide VisitRows, VisitFrames, Tagged, Preorder, Announced, Announcer, OtherSideEmpty, StrictlyUnder, ItsOwnError;
    var with := Descending(env, Some(side));
    var u, announced := Trees(with), false;
    var a := (row, f) => Announces(side, row, f);
    AnnouncedInTheWalk(with, side, a);
    TaggedRows(u, fuel, [root], OneSided);
    orphan, announced, j := MarkedRowsAreAnnounced(u, fuel, [root], OneSided, a, i);
    var row := MarkedWalk(env, side, fuel, root)[i].0;
    var n :| 0 <= n < |u.rows(orphan)| && u.rows(orphan)[n] == row;
    OrphanRows(with, side, orphan, n);
  }
}
