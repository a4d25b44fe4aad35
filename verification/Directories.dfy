/**
  No directory is visited twice: over a whole run the visited frames have pairwise different
  paths on either side. So what a run shows is, path by path, what one listing listed.
 */
module Directories {
  import opened Proto
  import opened ByteOrder
  import opened Key
  import opened Pair
  import opened PairTheorems
  import opened Listing
  import opened Visit
  import opened Traversal
  import opened Bounds
  import Join
  import opened Multisets
  import opened Classification
  import opened Containment
  import opened Descent
  import opened Frames
  import opened ListingOrder

  // ----- one side of things -----

  function On<A>(side: Side, left: Option<A>, right: Option<A>): Option<A> {
    match side
    case Left => left
    case Right => right
    case UnknownSide => None
  }

  function DirOn(side: Side, f: Frame): Option<Entry> {
    On(side, f.left, f.right)
  }

  function EntryOn(side: Side, row: PendingRow): Option<Entry> {
    On(side, row.left, row.right)
  }

  function ListingOn(env: Env, side: Side, f: Frame): ListResult {
    match side
    case Left => LeftListing(env, f)
    case Right => RightListing(env, f)
    case UnknownSide => Entries([])
  }

  // ----- the frames of one visit have different paths -----

  /** A descended directory lies directly in the visited one, on each side it has. */
  lemma KidPath(env: Env, f: Frame, g: Frame, side: Side)
    requires g in VisitFrames(env, f) && DirOn(side, g).Some?
    ensures DirOn(side, f).Some? && DirectChild(DirOn(side, f).value.path, DirOn(side, g).value.path)
  {
    hide VisitFrames, DirectChild, Excluded, ListAll, Retain;
    FramesNameListedEntries(env, f, g);
  }

  lemma OneFramePerItem(opts: CompareOptions, c: Collided, depth: U32, item: MergeItem)
    ensures |ItemFrames(opts, c, depth, item)| <= 1
  {
  }

  lemma {:induction false} FramesFromItems(opts: CompareOptions, c: Collided, depth: U32, items: seq<MergeItem>)
      returns (at: seq<nat>)
    ensures |at| == |AllFrames(opts, c, depth, items)|
    ensures forall n :: 0 <= n < |at| ==>
              at[n] < |items| && AllFrames(opts, c, depth, items)[n] in ItemFrames(opts, c, depth, items[at[n]])
    ensures forall m, n :: 0 <= m < n < |at| ==> at[m] < at[n]
  {
    hide ItemFrames, AllFrames;
    if items == [] {
      Join.NoFrames(opts, c, depth);
      at := [];
    } else {
      var n := |items| - 1;
      at := FramesFromItems(opts, c, depth, items[..n]);
      assert items == items[..n] + [items[n]];
      Join.AllFramesAppend(opts, c, depth, items[..n], items[n]);
      OneFramePerItem(opts, c, depth, items[n]);
      if ItemFrames(opts, c, depth, items[n]) != [] {
        at := at + [n];
      }
    }
  }

  /** The key of a frame's item is the key of its directory on each side. */
  lemma FrameKey(env: Env, p: Paired, depth: U32, item: MergeItem, g: Frame, side: Side)
    requires item in p.Items() && g in ItemFrames(env.opts, p.Clashes(), depth, item) && DirOn(side, g).Some?
    ensures KeyOf(p.enc, DirOn(side, g).value, p.sides) == item.key
  {
    hide Indexed, Unique, Merge, Collisions, CollidedAmong, Holders, KeyFor, DescendsBelow;
    ItemBelongs(p, item);
  }

  /** These frames have pairwise different directories on this side. */
  predicate Apart(side: Side, fs: seq<Frame>) {
    forall a, b :: 0 <= a < b < |fs| && DirOn(side, fs[a]).Some? && DirOn(side, fs[b]).Some? ==>
      DirOn(side, fs[a]).value.path != DirOn(side, fs[b]).value.path
  }

  lemma KidsApart(env: Env, f: Frame, side: Side)
    ensures Apart(side, VisitFrames(env, f))
  {
    hide ListVisible, SidesFor, Indexed, Unique, Merge, Collisions, CollidedAmong, ItemFrames, AllFrames, KeyFor, DirOn;
    if BothListed(env, f) {
      var p := PairedOf(env, f);
      var items, kids := p.Items(), VisitFrames(env, f);
      var at := FramesFromItems(env.opts, p.Clashes(), f.depth, items);
      ItemsAscend(p);
      AscendingDistinct(ItemKeys(items));
      forall a, b | 0 <= a < b < |kids| && DirOn(side, kids[a]).Some? && DirOn(side, kids[b]).Some?
        ensures DirOn(side, kids[a]).value.path != DirOn(side, kids[b]).value.path
      {
        assert ItemKeys(items)[at[a]] != ItemKeys(items)[at[b]];
        assert items[at[a]] in items && items[at[b]] in items;
        FrameKey(env, p, f.depth, items[at[a]], kids[a], side);
        FrameKey(env, p, f.depth, items[at[b]], kids[b], side);
      }
    }
  }

  // ----- and so have the frames of a whole run -----

  predicate SameLevel(side: Side, fs: seq<Frame>, level: nat) {
    forall a :: 0 <= a < |fs| && DirOn(side, fs[a]).Some? ==> |DirOn(side, fs[a]).value.path.segments| == level
  }

  lemma Diverge(p: VPath, q: VPath, x: VPath, y: VPath)
    requires |p.segments| == |q.segments| && p != q && IsDescendant(p, x) && IsDescendant(q, y)
    ensures x != y
  {
    assert p.segments == x.segments[..|p.segments|];
    assert q.segments == y.segments[..|q.segments|];
  }

  /** Every visited directory lies below, or is, one of those the walk starts from. */
  lemma {:induction false} VisitedBelow(env: Env, fuel: nat, todo: seq<Frame>, side: Side, f: Frame) returns (a: nat)
    requires f in Visited(Trees(env), fuel, todo) && DirOn(side, f).Some?
    ensures a < |todo| && DirOn(side, todo[a]).Some?
    ensures IsDescendant(DirOn(side, todo[a]).value.path, DirOn(side, f).value.path)
    decreases fuel, |todo|
  {
    hide VisitFrames, VisitRows, Visited, DirOn;
    VisitedHead(Trees(env), fuel, todo);
    if f == todo[0] {
      a := 0;
    } else if f in VisitedUnder(Trees(env), fuel, todo[0]) {
      var kids := VisitFrames(env, todo[0]);
      var b := VisitedBelow(env, fuel - 1, kids, side, f);
      assert kids[b] in kids;
      KidPath(env, todo[0], kids[b], side);
      a := 0;
    } else {
      a := VisitedBelow(env, fuel, todo[1..], side, f);
      a := a + 1;
    }
  }

  /** Every directory below `f` lies strictly below it. */
  lemma UnderIsBelow(env: Env, fuel: nat, f: Frame, side: Side, g: Frame)
    requires g in VisitedUnder(Trees(env), fuel, f) && DirOn(side, g).Some?
    ensures DirOn(side, f).Some? && IsDescendant(DirOn(side, f).value.path, DirOn(side, g).value.path)
    ensures |DirOn(side, f).value.path.segments| < |DirOn(side, g).value.path.segments|
  {
    hide VisitFrames, VisitRows, Visited, DirOn;
    var kids := VisitFrames(env, f);
    var b := VisitedBelow(env, fuel - 1, kids, side, g);
    assert kids[b] in kids;
    KidPath(env, f, kids[b], side);
  }

  lemma ApartAppend(side: Side, a: seq<Frame>, b: seq<Frame>)
    requires Apart(side, a) && Apart(side, b)
    requires forall x, y :: x in a && y in b && DirOn(side, x).Some? && DirOn(side, y).Some? ==>
               DirOn(side, x).value.path != DirOn(side, y).value.path
    ensures Apart(side, a + b)
  {
    hide DirOn;
  }

  lemma {:induction false} VisitedApart(env: Env, fuel: nat, todo: seq<Frame>, side: Side, level: nat)
    requires Apart(side, todo) && SameLevel(side, todo, level)
    ensures Apart(side, Visited(Trees(env), fuel, todo))
    decreases fuel, |todo|
  {
    hide VisitFrames, VisitRows, Visited, DirOn;
    VisitedHead(Trees(env), fuel, todo);
    if todo != [] {
      var f, under, after := todo[0], VisitedUnder(Trees(env), fuel, todo[0]), Visited(Trees(env), fuel, todo[1..]);
      VisitedApart(env, fuel, todo[1..], side, level);
      if fuel > 0 {
        var kids := VisitFrames(env, f);
        KidsApart(env, f, side);
        KidsLevel(env, f, side, level);
        VisitedApart(env, fuel - 1, kids, side, level + 1);
      }
      forall x | x in under && DirOn(side, f).Some? && DirOn(side, x).Some?
        ensures DirOn(side, f).value.path != DirOn(side, x).value.path
      {
        UnderIsBelow(env, fuel, f, side, x);
      }
      ApartAppend(side, [f], under);
      forall x, y | x in [f] + under && y in after && DirOn(side, x).Some? && DirOn(side, y).Some?
        ensures DirOn(side, x).value.path != DirOn(side, y).value.path
      {
        HeadApart(env, fuel, todo, side, level, x, y);
      }
      ApartAppend(side, [f] + under, after);
    }
  }

  lemma KidsLevel(env: Env, f: Frame, side: Side, level: nat)
    requires DirOn(side, f).Some? ==> |DirOn(side, f).value.path.segments| == level
    ensures SameLevel(side, VisitFrames(env, f), level + 1)
  {
    hide VisitFrames, DirOn;
    var kids := VisitFrames(env, f);
    forall a | 0 <= a < |kids| && DirOn(side, kids[a]).Some?
      ensures |DirOn(side, kids[a]).value.path.segments| == level + 1
    {
      KidPath(env, f, kids[a], side);
    }
  }

  lemma HeadApart(env: Env, fuel: nat, todo: seq<Frame>, side: Side, level: nat, x: Frame, y: Frame)
    requires todo != [] && Apart(side, todo) && SameLevel(side, todo, level)
    requires x == todo[0] || x in VisitedUnder(Trees(env), fuel, todo[0])
    requires y in Visited(Trees(env), fuel, todo[1..])
    requires DirOn(side, x).Some? && DirOn(side, y).Some?
    ensures DirOn(side, x).value.path != DirOn(side, y).value.path
  {
    hide VisitFrames, VisitRows, Visited, DirOn;
    var a := VisitedBelow(env, fuel, todo[1..], side, y);
    if x != todo[0] {
      UnderIsBelow(env, fuel, todo[0], side, x);
    }
    assert todo[1..][a] == todo[a + 1];
    Diverge(DirOn(side, todo[0]).value.path, DirOn(side, todo[a + 1]).value.path,
            DirOn(side, x).value.path, DirOn(side, y).value.path);
  }

  /** No directory is visited twice, on either side, whatever the providers answer. */
  lemma NoDirectoryTwice(env: Env, fuel: nat, root: Frame, side: Side)
    ensures Apart(side, Visited(Trees(env), fuel, [root]))
  {
    hide VisitFrames, VisitRows, Visited, DirOn;
    var level := if DirOn(side, root).Some? then |DirOn(side, root).value.path.segments| else 0;
    VisitedApart(env, fuel, [root], side, level);
  }

  /** So a visited frame is known by its path. */
  lemma OneFramePerPath(env: Env, fuel: nat, root: Frame, side: Side, f: Frame, g: Frame)
    requires f in Visited(Trees(env), fuel, [root]) && g in Visited(Trees(env), fuel, [root])
    requires DirOn(side, f).Some? && DirOn(side, g).Some? && DirOn(side, f).value.path == DirOn(side, g).value.path
    ensures f == g
  {
    hide VisitFrames, VisitRows, Visited, DirOn;
    NoDirectoryTwice(env, fuel, root, side);
    var fs := Visited(Trees(env), fuel, [root]);
    var a :| 0 <= a < |fs| && fs[a] == f;
    var b :| 0 <= b < |fs| && fs[b] == g;
  }

  // ----- conservation over whole runs -----

  /** The row that says a listing failed. */
  predicate ListingFailed(row: PendingRow) {
    row.Flagged? && row.verdict == Error && row.criterion == Presence
  }

  /** The paths a run of rows shows on one side, but for directories that could not be listed. */
  function ShownPaths(side: Side, rows: seq<PendingRow>): seq<VPath> {
    if rows == [] then []
    else
      (if EntryOn(side, rows[0]).Some? && !ListingFailed(rows[0]) then [EntryOn(side, rows[0]).value.path] else []) +
      ShownPaths(side, rows[1..])
  }

  function PathOf(e: Entry): VPath {
    e.path
  }

  /** The paths a visited directory lists on one side; none if it could not be compared. */
  function ListedPaths(env: Env, side: Side, f: Frame): seq<VPath> {
    if BothListed(env, f) && ListingOn(env, side, f).Entries? then Map(PathOf, ListingOn(env, side, f).entries) else []
  }

  function AllListed(env: Env, side: Side, fs: seq<Frame>): seq<VPath> {
    if fs == [] then [] else ListedPaths(env, side, fs[0]) + AllListed(env, side, fs[1..])
  }

  lemma {:induction false} ShownAppend(side: Side, a: seq<PendingRow>, b: seq<PendingRow>)
    ensures ShownPaths(side, a + b) == ShownPaths(side, a) + ShownPaths(side, b)
  {
    if a == [] {
      assert a + b == b;
    } else {
      assert (a + b)[1..] == a[1..] + b;
      ShownAppend(side, a[1..], b);
    }
  }

  lemma {:induction false} ListedAppend(env: Env, side: Side, a: seq<Frame>, b: seq<Frame>)
    ensures AllListed(env, side, a + b) == AllListed(env, side, a) + AllListed(env, side, b)
  {
    hide ListedPaths;
    if a == [] {
      assert a + b == b;
    } else {
      assert (a + b)[1..] == a[1..] + b;
      ListedAppend(env, side, a[1..], b);
    }
  }

  lemma {:induction false} ShownAsStubs(rows: seq<PendingRow>)
    requires forall i :: 0 <= i < |rows| ==> !ListingFailed(rows[i])
    ensures ShownPaths(Left, rows) == Map(PathOf, LeftStubs(rows))
    ensures ShownPaths(Right, rows) == Map(PathOf, RightStubs(rows))
    ensures ShownPaths(UnknownSide, rows) == []
  {
    if rows != [] {
      hide ListingFailed;
      ShownAsStubs(rows[1..]);
      StubsCons(rows[0], rows[1..]);
      assert rows == [rows[0]] + rows[1..];
    }
  }

  lemma PairRowIsNoListing(env: Env, l: Entry, r: Entry)
    ensures !ListingFailed(PairRow(env, l, r))
  {
    hide VerdictFor, Asked;
  }

  lemma ListedRowsAreNoFailures(env: Env, f: Frame)
    requires BothListed(env, f)
    ensures forall i :: 0 <= i < |VisitRows(env, f)| ==> !ListingFailed(VisitRows(env, f)[i])
  {
    hide ListVisible, SidesFor, PairRow, Indexed, Unique, Collisions, CollidedAmong, Merge;
    forall l, r
      ensures !ListingFailed(PairRow(env, l, r))
    {
      PairRowIsNoListing(env, l, r);
    }
  }

  lemma FailedRowsShowNothing(env: Env, f: Frame, side: Side)
    requires !BothListed(env, f)
    ensures ShownPaths(side, VisitRows(env, f)) == []
  {
    hide ListVisible;
    var l, r := ErrorRows(f.left, LeftListing(env, f), Left), ErrorRows(f.right, RightListing(env, f), Right);
    ShownAppend(side, l, r);
  }

  lemma StubKeepsPath(entries: seq<Entry>)
    ensures Map(PathOf, Map(Stub, entries)) == Map(PathOf, entries)
  {
  }

  /** A visit shows exactly the paths its directory lists. */
  lemma VisitShowsListed(env: Env, f: Frame, side: Side)
    ensures multiset(ShownPaths(side, VisitRows(env, f))) == multiset(ListedPaths(env, side, f))
  {
    hide VisitRows, ListVisible, LeftStubs, RightStubs, ShownPaths, PathOf, Stub;
    if BothListed(env, f) {
      var rows := VisitRows(env, f);
      VisitConservesEntries(env, f);
      ListedRowsAreNoFailures(env, f);
      ShownAsStubs(rows);
      MapPermutes(PathOf, LeftStubs(rows), Map(Stub, LeftListing(env, f).entries));
      MapPermutes(PathOf, RightStubs(rows), Map(Stub, RightListing(env, f).entries));
      StubKeepsPath(LeftListing(env, f).entries);
      StubKeepsPath(RightListing(env, f).entries);
    } else {
      FailedRowsShowNothing(env, f, side);
    }
  }

  /** Conservation over a whole run: it shows exactly what the visited directories list. */
  lemma {:induction false} RunShowsListed(env: Env, fuel: nat, todo: seq<Frame>, side: Side)
    ensures multiset(ShownPaths(side, Preorder(Trees(env), fuel, todo)))
         == multiset(AllListed(env, side, Visited(Trees(env), fuel, todo)))
    decreases fuel, |todo|
  {
    hide VisitRows, VisitFrames, Preorder, Visited, ShownPaths, AllListed, ListedPaths;
    var t := Trees(env);
    PreorderHead(t, fuel, todo);
    VisitedHead(t, fuel, todo);
    if todo == [] {
      NothingShown(env, side);
    } else {
      var f := todo[0];
      VisitShowsListed(env, f, side);
      RunShowsListed(env, fuel, todo[1..], side);
      var below, under := Traversal.Below(t, fuel, f), VisitedUnder(t, fuel, f);
      if fuel > 0 {
        RunShowsListed(env, fuel - 1, VisitFrames(env, f), side);
      } else {
        NothingShown(env, side);
      }
      ShownAppend(side, VisitRows(env, f) + below, Preorder(t, fuel, todo[1..]));
      ShownAppend(side, VisitRows(env, f), below);
      ListedAppend(env, side, [f] + under, Visited(t, fuel, todo[1..]));
      ListedAppend(env, side, [f], under);
      ListedAlone(env, side, f);
    }
  }

  lemma NothingShown(env: Env, side: Side)
    ensures ShownPaths(side, []) == [] && AllListed(env, side, []) == []
  {
  }

  lemma ListedAlone(env: Env, side: Side, f: Frame)
    ensures AllListed(env, side, [f]) == ListedPaths(env, side, f)
  {
    hide ListedPaths;
    assert AllListed(env, side, [f][1..]) == [];
  }

  lemma ListedIsChild(env: Env, side: Side, f: Frame, x: VPath)
    requires x in ListedPaths(env, side, f)
    ensures DirOn(side, f).Some? && DirectChild(DirOn(side, f).value.path, x)
  {
    hide DirectChild, Excluded, ListAll, Retain;
    var es := ListingOn(env, side, f).entries;
    var i :| 0 <= i < |es| && Map(PathOf, es)[i] == x;
    assert es[i] in es;
  }

  /** Among frames with different directories, only one lists a given path. */
  lemma {:induction false} OneLister(env: Env, side: Side, fs: seq<Frame>, a: nat, x: VPath)
    requires Apart(side, fs) && a < |fs| && x in ListedPaths(env, side, fs[a])
    ensures multiset(AllListed(env, side, fs))[x] == multiset(ListedPaths(env, side, fs[a]))[x]
  {
    hide ListedPaths, DirOn, DirectChild;
    var rest := fs[1..];
    assert fs == [fs[0]] + rest;
    ListedIsChild(env, side, fs[a], x);
    if a == 0 {
      if x in AllListed(env, side, rest) {
        var b := ListerOf(env, side, rest, x);
        ListedIsChild(env, side, rest[b], x);
        ParentIsFixed(DirOn(side, fs[0]).value.path, DirOn(side, rest[b]).value.path, x);
      }
    } else {
      assert Apart(side, rest) by {
        assert forall i :: 0 <= i < |rest| ==> rest[i] == fs[i + 1];
      }
      OneLister(env, side, rest, a - 1, x);
      if x in ListedPaths(env, side, fs[0]) {
        ListedIsChild(env, side, fs[0], x);
        ParentIsFixed(DirOn(side, fs[0]).value.path, DirOn(side, fs[a]).value.path, x);
      }
    }
  }

  lemma {:induction false} ListerOf(env: Env, side: Side, fs: seq<Frame>, x: VPath) returns (a: nat)
    requires x in AllListed(env, side, fs)
    ensures a < |fs| && x in ListedPaths(env, side, fs[a])
  {
    hide ListedPaths;
    if x in ListedPaths(env, side, fs[0]) {
      a := 0;
    } else {
      a := ListerOf(env, side, fs[1..], x);
      a := a + 1;
    }
  }

  /** Over a whole run, a path is shown on one side exactly as often as the one directory that holds it lists it. */
  lemma ShownAsOftenAsListed(env: Env, fuel: nat, root: Frame, side: Side, f: Frame, x: VPath)
    requires f in Visited(Trees(env), fuel, [root]) && x in ListedPaths(env, side, f)
    ensures multiset(ShownPaths(side, Preorder(Trees(env), fuel, [root])))[x] == multiset(ListedPaths(env, side, f))[x]
  {
    hide VisitRows, VisitFrames, Preorder, Visited, ShownPaths, AllListed, ListedPaths, Apart;
    var fs := Visited(Trees(env), fuel, [root]);
    var a :| 0 <= a < |fs| && fs[a] == f;
    RunShowsListed(env, fuel, [root], side);
    NoDirectoryTwice(env, fuel, root, side);
    OneLister(env, side, fs, a, x);
  }

  lemma DistinctIsOnce<A>(s: seq<A>)
    ensures Distinct(s) <==> forall x :: x in s ==> multiset(s)[x] == 1
  {
    if Distinct(s) {
      forall x | x in s
        ensures multiset(s)[x] == 1
      {
        CountDistinct(s, x);
      }
    }
    if forall x :: x in s ==> multiset(s)[x] == 1 {
      forall i, j | 0 <= i < j < |s|
        ensures s[i] != s[j]
      {
        RepeatsIffTwice(s, i);
        assert s[i] in s;
      }
    }
  }

  /**
    Over a whole run no path is shown twice on one side, failed listings aside, if and only if
    no visited directory lists a path twice.
   */
  lemma NoPathShownTwice(env: Env, fuel: nat, root: Frame, side: Side)
    ensures Distinct(ShownPaths(side, Preorder(Trees(env), fuel, [root]))) <==>
            forall f :: f in Visited(Trees(env), fuel, [root]) ==> Distinct(ListedPaths(env, side, f))
  {
    hide VisitRows, VisitFrames, Preorder, Visited, ShownPaths, AllListed, ListedPaths, Distinct;
    var fs, shown := Visited(Trees(env), fuel, [root]), ShownPaths(side, Preorder(Trees(env), fuel, [root]));
    DistinctIsOnce(shown);
    RunShowsListed(env, fuel, [root], side);
    forall f | f in fs
      ensures Distinct(ListedPaths(env, side, f)) <==> forall x :: x in ListedPaths(env, side, f) ==> multiset(shown)[x] == 1
    {
      DistinctIsOnce(ListedPaths(env, side, f));
      forall x | x in ListedPaths(env, side, f)
        ensures multiset(shown)[x] == multiset(ListedPaths(env, side, f))[x]
      {
        ShownAsOftenAsListed(env, fuel, root, side, f, x);
      }
    }
    forall x | x in shown
      ensures exists f :: f in fs && x in ListedPaths(env, side, f)
    {
      assert x in multiset(shown);
      var a := ListerOf(env, side, fs, x);
      assert fs[a] in fs;
    }
    forall f, x | f in fs && x in ListedPaths(env, side, f)
      ensures x in shown
    {
      ShownAsOftenAsListed(env, fuel, root, side, f, x);
      assert multiset(shown)[x] > 0;
    }
  }
}
