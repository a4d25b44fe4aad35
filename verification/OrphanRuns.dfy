/**
  Where the rows `descend_orphans` adds lie, over whole runs. They all lie strictly under a
  directory the run announces as an orphan if and only if every topmost orphan could be
  listed: a nested orphan that cannot be still lies under the one it is nested in.
 */
module OrphanRuns {
  import opened Proto
  import opened Vfs
  import opened Key
  import opened Pair
  import opened Listing
  import opened Visit
  import opened Traversal
  import opened Bounds
  import opened Extension
  import opened Containment
  import opened Classification
  import opened Descent
  import opened Walk
  import opened Frames
  import opened Directories
  import opened Orphans
  import opened Endless

  // ----- chains of directories -----

  /** Down a chain each path extends the one before by one segment. */
  lemma {:induction false} ChainLevels(env: Env, c: seq<Frame>, side: Side)
    requires IsChain(Trees(env), c) && DirOn(side, Last(c)).Some?
    ensures forall i :: 0 <= i < |c| ==> DirOn(side, c[i]).Some?
    ensures forall i :: 0 <= i < |c| ==>
              && IsDescendant(DirOn(side, c[i]).value.path, DirOn(side, Last(c)).value.path)
              && |DirOn(side, c[i]).value.path.segments| == |DirOn(side, c[0]).value.path.segments| + i
  {
    hide VisitFrames, VisitRows, DirOn;
    var n := |c| - 1;
    if n > 0 {
      KidPath(env, c[n - 1], c[n], side);
      var up := c[..n];
      assert Last(up) == c[n - 1];
      ChainLevels(env, up, side);
      forall i | 0 <= i < n
        ensures DirOn(side, c[i]).Some?
        ensures IsDescendant(DirOn(side, c[i]).value.path, DirOn(side, c[n]).value.path)
        ensures |DirOn(side, c[i]).value.path.segments| == |DirOn(side, c[0]).value.path.segments| + i
      {
        assert up[i] == c[i];
        Transitive(DirOn(side, c[i]).value.path, DirOn(side, c[n - 1]).value.path, DirOn(side, c[n]).value.path);
      }
    }
  }

  lemma Transitive(p: VPath, q: VPath, r: VPath)
    requires IsDescendant(p, q) && DirectChild(q, r)
    ensures IsDescendant(p, r)
  {
  }

  /** Above a two-sided frame there are only two-sided frames. */
  lemma TwoSidedAbove(env: Env, c: seq<Frame>, i: nat)
    requires IsChain(Trees(env), c) && i < |c| && !OneSided(Last(c))
    ensures !OneSided(c[i])
  {
    hide VisitFrames, VisitRows;
    ChainLevels(env, c, Left);
    ChainLevels(env, c, Right);
    assert DirOn(Left, c[i]).Some? && DirOn(Right, c[i]).Some?;
  }

  lemma PrefixesAgree(p: VPath, q: VPath, r: VPath)
    requires IsDescendant(p, r) && IsDescendant(q, r) && |p.segments| == |q.segments|
    ensures p == q
  {
    assert p.segments == r.segments[..|p.segments|];
    assert q.segments == r.segments[..|q.segments|];
  }

  // ----- announced orphans -----

  /** The row says its entry exists on `side` only. */
  predicate OnlyOn(side: Side, row: PendingRow) {
    && row.Judged?
    && EntryOn(side, row).Some?
    && (side == Left ==> row.decision.verdict == OnlyLeft)
    && (side == Right ==> row.decision.verdict == OnlyRight)
  }

  /** The row announces a directory of `side` only, and `path` lies strictly under it. */
  predicate AnnouncesAbove(side: Side, row: PendingRow, path: VPath) {
    && OnlyOn(side, row)
    && EntryOn(side, row).value.kind == Dir
    && IsDescendant(EntryOn(side, row).value.path, path)
    && EntryOn(side, row).value.path != path
  }

  ghost predicate UnderAnnounced(side: Side, rows: seq<PendingRow>, row: PendingRow) {
    && EntryOn(side, row).Some?
    && exists j :: 0 <= j < |rows| && AnnouncesAbove(side, rows[j], EntryOn(side, row).value.path)
  }

  /** Every row the option adds lies strictly under a directory the same run announces on `side`. */
  ghost predicate AllAddedUnder(env: Env, side: Side, fuel: nat, root: Frame) {
    forall m :: m in MarkedWalk(env, side, fuel, root) && m.1 ==>
      UnderAnnounced(side, Rows(MarkedWalk(env, side, fuel, root)), m.0)
  }

  /** Every orphan found in a directory that both sides have, and then visited, could be listed. */
  ghost predicate TopOrphansListed(env: Env, side: Side, fuel: nat, root: Frame) {
    var with := Descending(env, Some(side));
    fuel > 0 ==>
      forall f, g :: f in Visited(Trees(with), fuel - 1, [root]) && !OneSided(f) && g in VisitFrames(with, f) && OneSided(g) ==>
        BothListed(with, g)
  }

  /** An orphan's own announcement lies in the same run. */
  lemma AnnouncedInRun(env: Env, side: Side, fuel: nat, root: Frame, c: seq<Frame>) returns (j: nat)
    requires var with := Descending(env, Some(side));
             IsChain(Trees(with), c) && c[0] == root && 2 <= |c| <= fuel + 1 && OneSided(Last(c))
    ensures var rows := Rows(MarkedWalk(env, side, fuel, root));
            j < |rows| && Announces(side, rows[j], Last(c))
  {
    hide VisitFrames, VisitRows, Visited, Tagged, Announces;
    var with := Descending(env, Some(side));
    var t, n := Trees(with), |c| - 1;
    var f, g := c[n - 1], c[n];
    assert Last(c[..n]) == f;
    ChainVisited(t, fuel, [root], c[..n]);
    var i := OrphansAreAnnounced(with, side, f, g);
    FrameHasTagged(t, fuel, [root], OneSided, f, VisitRows(with, f)[i]);
    var walk := MarkedWalk(env, side, fuel, root);
    j :| 0 <= j < |walk| && walk[j] == (VisitRows(with, f)[i], OneSided(f));
  }

  lemma AnnouncementIsAbove(side: Side, row: PendingRow, g: Frame, path: VPath)
    requires Announces(side, row, g) && DirectChild(DirOn(side, g).value.path, path)
    ensures AnnouncesAbove(side, row, path)
  {
  }

  lemma AnnouncedOnSide(side: Side, row: PendingRow, g: Frame)
    requires Announces(side, row, g)
    ensures OnSide(side, g) && DirOn(side, g).Some?
  {
  }

  /** An orphan's row, seen on the orphan's side. */
  lemma OrphanRowOnSide(env: Env, side: Side, g: Frame, row: PendingRow)
    requires OnSide(side, g) && row in VisitRows(env, g)
    ensures EntryOn(side, row).Some?
    ensures BothListed(env, g) ==> DirectChild(DirOn(side, g).value.path, EntryOn(side, row).value.path)
    ensures !BothListed(env, g) ==> EntryOn(side, row) == DirOn(side, g)
  {
    hide VisitRows, BothListed, DirectChild;
    var i :| 0 <= i < |VisitRows(env, g)| && VisitRows(env, g)[i] == row;
    OrphanRows(env, side, g, i);
  }

  // ----- if every topmost orphan was listed -----

  lemma UnderIfListed(env: Env, side: Side, fuel: nat, root: Frame, m: (PendingRow, bool))
    requires !OneSided(root) && TopOrphansListed(env, side, fuel, root)
    requires m in MarkedWalk(env, side, fuel, root) && m.1
    ensures UnderAnnounced(side, Rows(MarkedWalk(env, side, fuel, root)), m.0)
  {
    hide VisitFrames, VisitRows, BothListed, Visited, Tagged, Announces, AnnouncesAbove, DirectChild, OnSide, DirOn, EntryOn;
    var with := Descending(env, Some(side));
    var t, rows := Trees(with), Rows(MarkedWalk(env, side, fuel, root));
    var g := TaggedHasFrame(t, fuel, [root], OneSided, m);
    var c := VisitedHasChain(t, fuel, [root], g);
    var j := AnnouncedInRun(env, side, fuel, root, c);
    AnnouncedOnSide(side, rows[j], g);
    OrphanRowOnSide(with, side, g, m.0);
    if BothListed(with, g) {
      AnnouncementIsAbove(side, rows[j], g, EntryOn(side, m.0).value.path);
    } else {
      var n := |c| - 1;
      var up := c[..n];
      assert Last(up) == c[n - 1];
      ChainVisited(t, fuel - 1, [root], up);
      assert OneSided(Last(up));
      var k := AnnouncedInRun(env, side, fuel, root, up);
      KidPath(with, Last(up), g, side);
      AnnouncementIsAbove(side, rows[k], Last(up), EntryOn(side, m.0).value.path);
    }
  }

  // ----- and only if -----

  /** A directory both sides have is not announced as an orphan. */
  lemma PairedIsNoOrphan(env: Env, f: Frame, d: Frame, k: nat, side: Side)
    requires d in VisitFrames(env, f) && !OneSided(d) && k < |VisitRows(env, f)|
    requires EntryOn(side, VisitRows(env, f)[k]).Some? && DirOn(side, d).Some?
    requires EntryOn(side, VisitRows(env, f)[k]).value.path == DirOn(side, d).value.path
    ensures !OnlyOn(side, VisitRows(env, f)[k])
  {
    hide ListVisible, SidesFor, PairedRows, VisitFrames, Holders, KeyFor;
    DescendsExactly(env, f, d);
    var p := PairedOf(env, f);
    var k1 :| DescendedAt(env, p, f.depth, d, k1);
    var k2 := EveryRowIsClassified(env, p, k);
    assert k1 == k2;
  }

  lemma OnlyRowsAreListed(env: Env, f: Frame, k: nat, side: Side)
    requires k < |VisitRows(env, f)| && OnlyOn(side, VisitRows(env, f)[k])
    ensures DirOn(side, f).Some? && DirectChild(DirOn(side, f).value.path, EntryOn(side, VisitRows(env, f)[k]).value.path)
  {
    hide ListAll, Retain, PairedRows, DirectChild, Excluded;
    RowsNameListedEntries(env, f, k);
  }

  /** Where a chain passes the directory of an announced orphan, it has that orphan's parent frame. */
  lemma ChainPassesThrough(env: Env, fuel: nat, root: Frame, c: seq<Frame>, h: Frame, x: VPath, side: Side) returns (m: nat)
    requires IsChain(Trees(env), c) && c[0] == root && |c| <= fuel + 1 && DirOn(side, Last(c)).Some?
    requires h in Visited(Trees(env), fuel, [root]) && DirOn(side, h).Some?
    requires DirectChild(DirOn(side, h).value.path, x)
    requires IsDescendant(x, DirOn(side, Last(c)).value.path) && x != DirOn(side, Last(c)).value.path
    ensures m + 2 < |c| && c[m] == h && DirOn(side, c[m + 1]).Some? && DirOn(side, c[m + 1]).value.path == x
  {
    hide VisitFrames, VisitRows, Visited, DirOn;
    var t := Trees(env);
    var up := VisitedHasChain(t, fuel, [root], h);
    ChainLevels(env, up, side);
    ChainLevels(env, c, side);
    m := |up| - 1;
    var last := DirOn(side, Last(c)).value.path;
    assert |x.segments| < |last.segments| by {
      ShorterPrefix(x, last);
    }
    PrefixesAgree(DirOn(side, c[m + 1]).value.path, x, last);
    KidPath(env, c[m], c[m + 1], side);
    ParentIsFixed(DirOn(side, c[m]).value.path, DirOn(side, h).value.path, x);
    assert Last(c[..m + 1]) == c[m];
    ChainVisited(t, fuel, [root], c[..m + 1]);
    OneFramePerPath(env, fuel, root, side, c[m], h);
  }

  lemma ShorterPrefix(p: VPath, q: VPath)
    requires IsDescendant(p, q) && p != q
    ensures |p.segments| < |q.segments|
  {
    if |p.segments| == |q.segments| {
      PrefixesAgree(p, q, q);
    }
  }

  /** Nothing above an orphan found in a two-sided directory is announced as an orphan. */
  lemma NoOrphanAbove(env: Env, fuel: nat, root: Frame, c: seq<Frame>, h: Frame, k: nat, side: Side)
    requires IsChain(Trees(env), c) && c[0] == root && 2 <= |c| <= fuel + 1 && DirOn(side, Last(c)).Some?
    requires !OneSided(c[|c| - 2])
    requires h in Visited(Trees(env), fuel, [root]) && k < |VisitRows(env, h)|
    ensures !AnnouncesAbove(side, VisitRows(env, h)[k], DirOn(side, Last(c)).value.path)
  {
    hide VisitFrames, VisitRows, Visited, DirOn, EntryOn, IsDescendant, OneSided;
    var row := VisitRows(env, h)[k];
    if AnnouncesAbove(side, row, DirOn(side, Last(c)).value.path) {
      OnlyRowsAreListed(env, h, k, side);
      var m := ChainPassesThrough(env, fuel, root, c, h, EntryOn(side, row).value.path, side);
      var up := c[..|c| - 1];
      assert Last(up) == c[|c| - 2] && up[m + 1] == c[m + 1];
      TwoSidedAbove(env, up, m + 1);
      PairedIsNoOrphan(env, h, c[m + 1], k, side);
    }
  }

  lemma ListedIfUnder(env: Env, side: Side, fuel: nat, root: Frame, f: Frame, g: Frame)
    requires fuel > 0 && AllAddedUnder(env, side, fuel, root)
    requires var with := Descending(env, Some(side));
             f in Visited(Trees(with), fuel - 1, [root]) && g in VisitFrames(with, f)
    requires !OneSided(f) && OneSided(g)
    ensures BothListed(Descending(env, Some(side)), g)
  {
    hide VisitFrames, VisitRows, BothListed, Visited, Tagged, Announces, AnnouncesAbove, OnSide, DirOn, EntryOn, OneSided, Preorder;
    var with := Descending(env, Some(side));
    var t, walk := Trees(with), MarkedWalk(env, side, fuel, root);
    var up := VisitedHasChain(t, fuel - 1, [root], f);
    var c := up + [g];
    assert IsChain(t, c) && Last(c) == g && c[|c| - 2] == f && c[0] == root;
    var i := OrphansAreAnnounced(with, side, f, g);
    AnnouncedOnSide(side, VisitRows(with, f)[i], g);
    if !BothListed(with, g) {
      var row := FailedRow(with, g);
      ChainVisited(t, fuel, [root], c);
      FrameHasTagged(t, fuel, [root], OneSided, g, row);
      OrphanRowOnSide(with, side, g, row);
      var j :| 0 <= j < |Rows(walk)| && AnnouncesAbove(side, Rows(walk)[j], EntryOn(side, row).value.path);
      assert walk[j] in walk;
      var h := TaggedHasFrame(t, fuel, [root], OneSided, walk[j]);
      var k :| 0 <= k < |VisitRows(with, h)| && VisitRows(with, h)[k] == walk[j].0;
      NoOrphanAbove(with, fuel, root, c, h, k, side);
    }
  }

  lemma FailedRow(env: Env, g: Frame) returns (row: PendingRow)
    requires !BothListed(env, g)
    ensures row in VisitRows(env, g)
  {
    hide ListVisible;
    row := VisitRows(env, g)[0];
  }

  /**
    Every row the option adds lies strictly under a directory that the same run announces on
    its side, if and only if every orphan found in a directory both sides have could be
    listed. The rows of nested orphans, listed or not, are never the exception.
   */
  lemma AddedRowsLieUnderIff(env: Env, side: Side, fuel: nat, root: Frame)
    requires !OneSided(root)
    ensures AllAddedUnder(env, side, fuel, root) <==> TopOrphansListed(env, side, fuel, root)
  {
    hide VisitFrames, VisitRows, BothListed, Visited, MarkedWalk, OneSided, UnderAnnounced;
    if TopOrphansListed(env, side, fuel, root) {
      forall m | m in MarkedWalk(env, side, fuel, root) && m.1
        ensures UnderAnnounced(side, Rows(MarkedWalk(env, side, fuel, root)), m.0)
      {
        UnderIfListed(env, side, fuel, root, m);
      }
    }
    if AllAddedUnder(env, side, fuel, root) && fuel > 0 {
      var with := Descending(env, Some(side));
      forall f, g | f in Visited(Trees(with), fuel - 1, [root]) && !OneSided(f) && g in VisitFrames(with, f) && OneSided(g)
        ensures BothListed(with, g)
      {
        ListedIfUnder(env, side, fuel, root, f, g);
      }
    }
  }

  // ----- a run where it fails -----

  const TOP: VPath := VPath("mem", None, [])

  /** The root holds one directory, which cannot be listed. */
  function Husk(): Provider {
    Tower().(list := dir => if dir == TOP then Stream(OneChild(dir)) else Unlistable)
  }

  /** Every directory is empty. */
  function Bare(): Provider {
    Tower().(list := dir => Stream(n => None))
  }

  lemma HuskAndBareList(env: Env)
    requires env.left == Husk() && env.right == Bare() && env.cap >= 1 && env.excluded == []
    ensures ListVisible(env, env.left, Some(SyntheticDir(TOP))) == Entries([Child(TOP)])
    ensures ListVisible(env, env.right, Some(SyntheticDir(TOP))) == Entries([])
    ensures ListVisible(env, env.left, Some(Child(TOP))).CannotList?
  {
    TowerLists(env.(left := Tower(), right := Tower()), SyntheticDir(TOP));
    assert Retain([], []) == [];
  }

  /** One unlistable orphan in the root: the option adds its error row, which lies under no announced directory. */
  lemma LoneUnlistableOrphan(env: Env, fuel: nat)
    requires env.left == Husk() && env.right == Bare() && env.cap >= 1 && env.excluded == []
    requires env.opts.maxDepth.None? && fuel > 0
    ensures !AllAddedUnder(env, Left, fuel, RootFrame(TOP, TOP))
  {
    hide ListVisible, SidesFor, Visited, VisitFrames, VisitRows, AllAddedUnder, MarkedWalk, Holders, Positions;
    var with, root := Descending(env, Some(Left)), RootFrame(TOP, TOP);
    var e, g := Child(TOP), Frame(Some(Child(TOP)), None, 1);
    HuskAndBareList(with);
    var p := PairedOf(with, root);
    OnlyHolder(p.enc, e, p.sides);
    NoHolder(p.enc, p.sides, KeyOf(p.enc, e, p.sides));
    assert DescendedAt(with, p, 0, g, KeyOf(p.enc, e, p.sides));
    DescendsExactly(with, root, g);
    VisitedHead(Trees(with), fuel - 1, [root]);
    assert root in Visited(Trees(with), fuel - 1, [root]);
    assert g in VisitFrames(with, root) && OneSided(g) && !OneSided(root) && !BothListed(with, g);
    assert !TopOrphansListed(env, Left, fuel, root);
    AddedRowsLieUnderIff(env, Left, fuel, root);
  }

  lemma NoHolder(enc: Encoding, sides: Sides, k: Bytes)
    ensures Holders(enc, [], sides, k) == 0
  {
  }
}
