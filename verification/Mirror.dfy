/**
  Mirror symmetry: comparing the other way round gives the mirrored rows. Proved exactly:
  row by row if and only if no visited directory fails or collides on both sides and every
  pair mirrors; and up to order if and only if every pair mirrors.
 */
module Mirror {
  import opened Proto
  import opened ByteOrder
  import opened Key
  import opened Pair
  import opened PairTheorems
  import opened Listing
  import opened Visit
  import opened Traversal
  import opened Bounds
  import opened Walk
  import opened Descent

  function SwapFrame(f: Frame): Frame {
    Frame(f.right, f.left, f.depth)
  }

  function MirrorItem(item: MergeItem): MergeItem {
    match item
    case LeftOnly(k, e) => RightOnly(k, e)
    case RightOnly(k, e) => LeftOnly(k, e)
    case Both(k, l, r) => Both(k, r, l)
  }

  function SwapCollided(c: Collided): Collided {
    Collided(c.right, c.left)
  }

  // ----- indexing has no favourite side -----

  lemma {:induction false} CollidedAmongSwaps(enc: Encoding, cs: seq<(Entry, Reason)>, sides: Sides)
    ensures CollidedAmong(enc, cs, sides.Swap()) == CollidedAmong(enc, cs, sides)
  {
    FoldIsSymmetric(sides);
    if cs != [] {
      CollidedAmongSwaps(enc, cs[..|cs| - 1], sides);
    }
  }

  lemma IndexedSwaps(enc: Encoding, entries: seq<Entry>, sides: Sides)
    ensures Indexed(enc, entries, sides.Swap()) == Indexed(enc, entries, sides)
  {
    FoldIsSymmetric(sides);
    assert Keys(enc, entries, sides.Swap()) == Keys(enc, entries, sides);
    assert Reasons(enc, entries, sides.Swap()) == Reasons(enc, entries, sides);
  }

  lemma {:induction false} MergeMirrors(ls: seq<(Bytes, Entry)>, rs: seq<(Bytes, Entry)>)
    requires Ascending(FirstsOf(ls)) && Ascending(FirstsOf(rs))
    ensures Merge(rs, ls) == Map(MirrorItem, Merge(ls, rs))
    decreases |ls| + |rs|
  {
    if ls == [] && rs == [] {
      return;
    }
    if ls != [] { AscendingHead(ls); }
    if rs != [] { AscendingHead(rs); }
    if rs == [] || (ls != [] && Less(ls[0].0, rs[0].0)) {
      MergeMirrors(ls[1..], rs);
      if rs != [] { LessAsymmetric(ls[0].0, rs[0].0); }
      MapCons(LeftOnly(ls[0].0, ls[0].1), Merge(ls[1..], rs));
    } else if ls == [] || Less(rs[0].0, ls[0].0) {
      MergeMirrors(ls, rs[1..]);
      MapCons(RightOnly(rs[0].0, rs[0].1), Merge(ls, rs[1..]));
    } else {
      LessTotal(ls[0].0, rs[0].0);
      MergeMirrors(ls[1..], rs[1..]);
      MapCons(Both(ls[0].0, ls[0].1, rs[0].1), Merge(ls[1..], rs[1..]));
    }
  }

  lemma MapCons(item: MergeItem, rest: seq<MergeItem>)
    ensures Map(MirrorItem, [item] + rest) == [MirrorItem(item)] + Map(MirrorItem, rest)
  {
  }

  function SwapPaired(p: Paired): Paired {
    Paired(p.enc, p.sides.Swap(), p.rights, p.lefts)
  }

  lemma PairedMirrors(p: Paired)
    ensures SwapPaired(p).LeftIndex() == p.RightIndex()
    ensures SwapPaired(p).RightIndex() == p.LeftIndex()
    ensures SwapPaired(p).Clashes() == SwapCollided(p.Clashes())
    ensures SwapPaired(p).Items() == Map(MirrorItem, p.Items())
  {
    hide Indexed, Unique, Collisions, CollidedAmong, Merge, KeyOf, Holders, HeldOnce;
    IndexedSwaps(p.enc, p.lefts, p.sides);
    IndexedSwaps(p.enc, p.rights, p.sides);
    CollidedAmongSwaps(p.enc, Collisions(p.LeftIndex()), p.sides);
    CollidedAmongSwaps(p.enc, Collisions(p.RightIndex()), p.sides);
    UniqueSpec(p.enc, p.lefts, p.sides);
    UniqueSpec(p.enc, p.rights, p.sides);
    MergeMirrors(Unique(p.LeftIndex()), Unique(p.RightIndex()));
  }

  // ----- frames -----

  lemma {:induction false} AllFramesMirror(env: Env, c: Collided, depth: U32, items: seq<MergeItem>)
    ensures AllFrames(env.Swap().opts, SwapCollided(c), depth, Map(MirrorItem, items))
         == Map(SwapFrame, AllFrames(env.opts, c, depth, items))
  {
    if items != [] {
      AllFramesMirror(env, c, depth, items[1..]);
      MapHead(MirrorItem, items);
      MapAppend(SwapFrame, ItemFrames(env.opts, c, depth, items[0]), AllFrames(env.opts, c, depth, items[1..]));
      ItemFramesMirror(env, c, depth, items[0]);
    }
  }

  lemma ItemFramesMirror(env: Env, c: Collided, depth: U32, item: MergeItem)
    ensures ItemFrames(env.Swap().opts, SwapCollided(c), depth, MirrorItem(item))
         == Map(SwapFrame, ItemFrames(env.opts, c, depth, item))
  {
    var o := env.opts.descendOrphans;
    assert FlipOption(o) == Some(Left) <==> o == Some(Right);
    assert FlipOption(o) == Some(Right) <==> o == Some(Left);
  }

  lemma ListingsSwap(env: Env, f: Frame)
    ensures LeftListing(env.Swap(), SwapFrame(f)) == RightListing(env, f)
    ensures RightListing(env.Swap(), SwapFrame(f)) == LeftListing(env, f)
    ensures SidesFor(env.Swap(), SwapFrame(f)) == SidesFor(env, f).Swap()
  {
    hide ListAll;
  }

  lemma VisitFramesMirror(env: Env, f: Frame)
    ensures VisitFrames(env.Swap(), SwapFrame(f)) == Map(SwapFrame, VisitFrames(env, f))
  {
    hide ListVisible, SidesFor, AllFrames, Indexed, Unique, Collisions, CollidedAmong, Merge;
    ListingsSwap(env, f);
    if BothListed(env, f) {
      var p := PairedOf(env, f);
      PairedMirrors(p);
      AllFramesMirror(env, p.Clashes(), f.depth, p.Items());
      assert PairedOf(env.Swap(), SwapFrame(f)) == SwapPaired(p);
    }
  }

  // ----- rows -----

  function MirrorRows(rows: seq<PendingRow>): seq<PendingRow> {
    Map(MirrorPending, rows)
  }

  /** Each pair of the directory mirrors. */
  predicate PairsMirror(env: Env, items: seq<MergeItem>) {
    forall i :: 0 <= i < |items| && items[i].Both? ==> PairMirrors(env, items[i].l, items[i].r)
  }

  lemma ItemRowMirrors(env: Env, c: Collided, item: MergeItem)
    ensures ItemRow(env.Swap(), SwapCollided(c), MirrorItem(item)) == MirrorPending(ItemRow(env, c, item)) <==>
            (item.Both? ==> PairMirrors(env, item.l, item.r))
  {
    hide PairRow, PairMirrors;
    if item.Both? {
      PairRowMirrors(env, item.l, item.r);
    }
  }

  lemma ItemRowsMirror(env: Env, c: Collided, items: seq<MergeItem>)
    ensures ItemRows(env.Swap(), SwapCollided(c), Map(MirrorItem, items)) == MirrorRows(ItemRows(env, c, items)) <==>
            PairsMirror(env, items)
  {
    hide ItemRow, PairMirrors, MirrorPending, MirrorItem;
    var there := ItemRows(env.Swap(), SwapCollided(c), Map(MirrorItem, items));
    var back := MirrorRows(ItemRows(env, c, items));
    forall i | 0 <= i < |items|
      ensures there[i] == back[i] <==> (items[i].Both? ==> PairMirrors(env, items[i].l, items[i].r))
    {
      ItemRowMirrors(env, c, items[i]);
    }
    if PairsMirror(env, items) {
      assert there == back;
    }
  }

  lemma CollisionRowsMirror(cs: seq<(Entry, Reason)>)
    ensures CollisionRows(cs, Right) == MirrorRows(CollisionRows(cs, Left))
    ensures CollisionRows(cs, Left) == MirrorRows(CollisionRows(cs, Right))
  {
  }

  /** Some entry of this side collides. */
  predicate HasClash(idx: SideIndex)
    requires idx.Valid()
  {
    Collisions(idx) != []
  }

  /** The directory's own rows mirror in order: it does not collide on both sides, and its pairs mirror. */
  predicate PairedMirrorsInOrder(env: Env, p: Paired) {
    !(HasClash(p.LeftIndex()) && HasClash(p.RightIndex())) && PairsMirror(env, p.Items())
  }

  lemma ClashRowsMirror(l: SideIndex, r: SideIndex)
    requires l.Valid() && r.Valid()
    ensures ClashRows(r, l) == MirrorRows(ClashRows(l, r)) <==> !(HasClash(l) && HasClash(r))
    ensures |ClashRows(r, l)| == |ClashRows(l, r)|
    ensures multiset(ClashRows(r, l)) == multiset(MirrorRows(ClashRows(l, r)))
  {
    hide Collisions;
    var a, b := CollisionRows(Collisions(l), Left), CollisionRows(Collisions(r), Right);
    CollisionRowsMirror(Collisions(l));
    CollisionRowsMirror(Collisions(r));
    MapAppend(MirrorPending, a, b);
    var a', b' := MirrorRows(a), MirrorRows(b);
    assert ClashRows(r, l) == b' + a';
    if HasClash(l) && HasClash(r) {
      assert (b' + a')[0] == b'[0] && (a' + b')[0] == a'[0];
      assert b'[0].left.Some? && a'[0].left.None?;
    } else {
      assert a' == [] || b' == [];
      assert b' + a' == a' + b';
    }
  }

  /** Two runs of rows, each with its mirror image. */
  lemma TwoRuns(a: seq<PendingRow>, b: seq<PendingRow>, a': seq<PendingRow>, b': seq<PendingRow>)
    requires |a'| == |a| && |b'| == |b|
    ensures a' + b' == MirrorRows(a + b) <==> a' == MirrorRows(a) && b' == MirrorRows(b)
    ensures multiset(a') == multiset(MirrorRows(a)) && b' == MirrorRows(b) ==>
              multiset(a' + b') == multiset(MirrorRows(a + b))
  {
    hide MirrorPending;
    MapAppend(MirrorPending, a, b);
    if a' + b' == MirrorRows(a + b) {
      assert a' == (a' + b')[..|a|] && MirrorRows(a) == MirrorRows(a + b)[..|a|];
      assert b' == (a' + b')[|a|..] && MirrorRows(b) == MirrorRows(a + b)[|a|..];
    }
  }

  lemma PairedRowsMirror(env: Env, p: Paired)
    ensures PairedRows(env.Swap(), SwapPaired(p)) == MirrorRows(PairedRows(env, p)) <==> PairedMirrorsInOrder(env, p)
    ensures |PairedRows(env.Swap(), SwapPaired(p))| == |PairedRows(env, p)|
    ensures PairsMirror(env, p.Items()) ==>
              multiset(PairedRows(env.Swap(), SwapPaired(p))) == multiset(MirrorRows(PairedRows(env, p)))
  {
    hide Indexed, Unique, Collisions, CollidedAmong, Merge, ClashRows, PairsMirror, HasClash, MirrorRows, ItemRow, SwapCollided;
    PairedMirrors(p);
    var l, r, items, c := p.LeftIndex(), p.RightIndex(), p.Items(), p.Clashes();
    ClashRowsMirror(l, r);
    ItemRowsMirror(env, c, items);
    TwoRuns(ClashRows(l, r), ItemRows(env, c, items),
            ClashRows(r, l), ItemRows(env.Swap(), SwapCollided(c), Map(MirrorItem, items)));
  }

  // ----- one visit -----

  /** The visit mirrors row by row: its directory neither fails nor collides on both sides, and its pairs mirror. */
  predicate FrameMirrors(env: Env, f: Frame) {
    if BothListed(env, f) then PairedMirrorsInOrder(env, PairedOf(env, f))
    else LeftListing(env, f).Entries? || RightListing(env, f).Entries?
  }

  /** The pairs of the visit mirror, whatever its order. */
  predicate FramePairsMirror(env: Env, f: Frame) {
    BothListed(env, f) ==> PairsMirror(env, PairedOf(env, f).Items())
  }

  // ----- a pair that does not mirror shows, in whatever directory one looks -----

  lemma ListedIn(env: Env, f: Frame, item: MergeItem)
    requires BothListed(env, f) && item in PairedOf(env, f).Items() && item.Both?
    ensures f.left.Some? && DirectChild(f.left.value.path, item.l.path)
    ensures f.right.Some? && DirectChild(f.right.value.path, item.r.path)
    ensures Belongs(PairedOf(env, f), item)
  {
    hide ListAll, Retain, DirectChild, Excluded, SidesFor, Holders, KeyFor, Indexed, Unique, Merge;
    ItemBelongs(PairedOf(env, f), item);
  }

  /** A visit looks at nothing of its two directories but their paths. */
  lemma OnlyPathsMatter(env: Env, f: Frame, g: Frame)
    requires f.left.Some? && g.left.Some? && f.left.value.path == g.left.value.path
    requires f.right.Some? && g.right.Some? && f.right.value.path == g.right.value.path
    ensures LeftListing(env, f) == LeftListing(env, g) && RightListing(env, f) == RightListing(env, g)
    ensures SidesFor(env, f) == SidesFor(env, g)
  {
    hide ListAll, Retain;
  }

  /** Two paths name one pair: whichever frames show it, its entries are the same. */
  lemma OnePairPerPaths(env: Env, f: Frame, g: Frame, item: MergeItem, other: MergeItem)
    requires BothListed(env, f) && item in PairedOf(env, f).Items() && item.Both?
    requires BothListed(env, g) && other in PairedOf(env, g).Items() && other.Both?
    requires item.l.path == other.l.path && item.r.path == other.r.path
    ensures item.l == other.l && item.r == other.r
  {
    hide DirectChild, ListVisible, SidesFor, Holders, Indexed, Unique, Merge, KeyFor;
    ListedIn(env, f, item);
    ListedIn(env, g, other);
    ParentIsFixed(f.left.value.path, g.left.value.path, item.l.path);
    ParentIsFixed(f.right.value.path, g.right.value.path, item.r.path);
    var p := PairedOf(env, f);
    OnlyPathsMatter(env, f, g);
    assert PairedOf(env, g) == p;
    OneHolder(p.enc, p.lefts, p.sides, item.key, item.l, other.l);
    OneHolder(p.enc, p.rights, p.sides, item.key, item.r, other.r);
  }

  /** Only a pair's row shows both sides. */
  lemma TwoSidedRow(env: Env, f: Frame, i: nat) returns (item: MergeItem)
    requires i < |VisitRows(env, f)| && VisitRows(env, f)[i].left.Some? && VisitRows(env, f)[i].right.Some?
    ensures BothListed(env, f) && item in PairedOf(env, f).Items() && item.Both?
    ensures VisitRows(env, f)[i] == PairRow(env, item.l, item.r)
  {
    hide ListVisible, SidesFor, PairRow, Indexed, Unique, Collisions, CollidedAmong, Merge;
    var p := PairedOf(env, f);
    item := p.Items()[i - |ClashRows(p.LeftIndex(), p.RightIndex())|];
  }

  lemma RowOfPair(env: Env, f: Frame, n: nat) returns (i: nat)
    requires BothListed(env, f) && n < |PairedOf(env, f).Items()| && PairedOf(env, f).Items()[n].Both?
    ensures var item := PairedOf(env, f).Items()[n];
            i < |VisitRows(env, f)| && VisitRows(env, f)[i] == PairRow(env, item.l, item.r)
  {
    hide ListVisible, SidesFor, PairRow, Indexed, Unique, Collisions, CollidedAmong, Merge;
    var p := PairedOf(env, f);
    i := |ClashRows(p.LeftIndex(), p.RightIndex())| + n;
  }

  lemma SwapTwice(env: Env, f: Frame)
    ensures env.Swap().Swap() == env && SwapFrame(SwapFrame(f)) == f
  {
  }

  /** The other direction's pair, looked up in this direction. */
  lemma PairSeenFromHere(env: Env, g: Frame, item: MergeItem)
    requires BothListed(env.Swap(), g) && item in PairedOf(env.Swap(), g).Items() && item.Both?
    ensures BothListed(env, SwapFrame(g)) && MirrorItem(item) in PairedOf(env, SwapFrame(g)).Items()
  {
    hide ListVisible, SidesFor, Indexed, Unique, Collisions, CollidedAmong, Merge, MirrorItem;
    ListingsSwap(env.Swap(), g);
    SwapTwice(env, g);
    var p := PairedOf(env.Swap(), g);
    assert PairedOf(env, SwapFrame(g)) == SwapPaired(p);
    PairedMirrors(p);
    var n :| 0 <= n < |p.Items()| && p.Items()[n] == item;
    assert Map(MirrorItem, p.Items())[n] == MirrorItem(item);
  }

  /** Some visit of the comparison, of whatever frame, would emit this row. */
  ghost predicate AppearsIn(env: Env, row: PendingRow) {
    exists g: Frame :: row in VisitRows(env, g)
  }

  /** A two-sided row of the other direction is the row of a pair of this one, seen from there. */
  lemma RowSeenFromHere(env: Env, g: Frame, row: PendingRow) returns (item: MergeItem)
    requires row in VisitRows(env.Swap(), g) && row.left.Some? && row.right.Some?
    ensures BothListed(env, SwapFrame(g)) && item in PairedOf(env, SwapFrame(g)).Items() && item.Both?
    ensures row == PairRow(env.Swap(), item.r, item.l)
    ensures row.left.value.path == item.r.path && row.right.value.path == item.l.path
  {
    hide VisitRows, BothListed, PairedOf, PairRow, SwapFrame, Merge, Unique, Indexed;
    var j :| 0 <= j < |VisitRows(env.Swap(), g)| && VisitRows(env.Swap(), g)[j] == row;
    var there := TwoSidedRow(env.Swap(), g, j);
    PairSeenFromHere(env, g, there);
    item := MirrorItem(there);
    PathsOfPair(env.Swap(), item.r, item.l);
  }

  lemma PathsOfPair(env: Env, l: Entry, r: Entry)
    ensures var row := PairRow(env, l, r);
            row.left.Some? && row.right.Some? && row.left.value.path == l.path && row.right.value.path == r.path
  {
    hide PairRow;
    PairRowKeepsEntries(env, l, r);
    var row := PairRow(env, l, r);
    assert Stub(row.left.value).path == l.path && Stub(row.right.value).path == r.path;
  }

  /** The mirror image of a pair's row appears somewhere the other way round only if the pair mirrors. */
  lemma MirrorImageAppears(env: Env, f: Frame, item: MergeItem)
    requires BothListed(env, f) && item in PairedOf(env, f).Items() && item.Both?
    requires AppearsIn(env.Swap(), MirrorPending(PairRow(env, item.l, item.r)))
    ensures PairMirrors(env, item.l, item.r)
  {
    hide VisitRows, BothListed, PairedOf, PairRow, PairMirrors, SwapFrame, Merge, Unique, Indexed;
    var row := MirrorPending(PairRow(env, item.l, item.r));
    var g :| row in VisitRows(env.Swap(), g);
    PathsOfPair(env, item.l, item.r);
    var there := RowSeenFromHere(env, g, row);
    OnePairPerPaths(env, f, SwapFrame(g), item, there);
    PairRowMirrors(env, item.l, item.r);
  }

  /** If each row of a visit has its mirror image somewhere the other way round, its pairs mirror. */
  lemma PairsMirrorIfRowsDo(env: Env, f: Frame)
    requires forall i :: 0 <= i < |VisitRows(env, f)| ==> AppearsIn(env.Swap(), MirrorPending(VisitRows(env, f)[i]))
    ensures FramePairsMirror(env, f)
  {
    hide VisitRows, BothListed, PairedOf, PairRow, PairMirrors, MirrorPending, AppearsIn, Merge, Unique, Indexed;
    if BothListed(env, f) {
      var items := PairedOf(env, f).Items();
      forall n | 0 <= n < |items| && items[n].Both?
        ensures PairMirrors(env, items[n].l, items[n].r)
      {
        var i := RowOfPair(env, f, n);
        assert AppearsIn(env.Swap(), MirrorPending(VisitRows(env, f)[i]));
        assert items[n] in items;
        MirrorImageAppears(env, f, items[n]);
      }
    }
  }

  lemma ErrorRowMirrors(dir: Option<Entry>, res: ListResult)
    ensures ErrorRows(dir, res, Right) == MirrorRows(ErrorRows(dir, res, Left))
    ensures ErrorRows(dir, res, Left) == MirrorRows(ErrorRows(dir, res, Right))
    ensures ErrorRows(dir, res, Left) == [] <==> res.Entries?
  {
  }

  lemma ErrorRowsMirror(l: Option<Entry>, lres: ListResult, r: Option<Entry>, rres: ListResult)
    ensures var rows := ErrorRows(l, lres, Left) + ErrorRows(r, rres, Right);
            var back := ErrorRows(r, rres, Left) + ErrorRows(l, lres, Right);
            && (back == MirrorRows(rows) <==> lres.Entries? || rres.Entries?)
            && |back| == |rows|
            && multiset(back) == multiset(MirrorRows(rows))
  {
    var a, b := ErrorRows(l, lres, Left), ErrorRows(r, rres, Right);
    ErrorRowMirrors(l, lres);
    ErrorRowMirrors(r, rres);
    MapAppend(MirrorPending, a, b);
    var a': seq<PendingRow>, b': seq<PendingRow> := MirrorRows(a), MirrorRows(b);
    if lres.Entries? || rres.Entries? {
      assert b' + a' == a' + b';
    } else {
      assert (b' + a')[0].side == Left && (a' + b')[0].side == Right;
    }
  }

  /** One visit the other way round, exactly. */
  lemma VisitRowsMirror(env: Env, f: Frame)
    ensures VisitRows(env.Swap(), SwapFrame(f)) == MirrorRows(VisitRows(env, f)) <==> FrameMirrors(env, f)
    ensures |VisitRows(env.Swap(), SwapFrame(f))| == |VisitRows(env, f)|
    ensures multiset(VisitRows(env.Swap(), SwapFrame(f))) == multiset(MirrorRows(VisitRows(env, f))) <==>
            FramePairsMirror(env, f)
  {
    hide ListVisible, SidesFor, PairedRows, PairedMirrorsInOrder, PairsMirror, MirrorRows, ErrorRows;
    ListingsSwap(env, f);
    if BothListed(env, f) {
      PairedRowsMirror(env, PairedOf(env, f));
      assert PairedOf(env.Swap(), SwapFrame(f)) == SwapPaired(PairedOf(env, f));
    } else {
      ErrorRowsMirror(f.left, LeftListing(env, f), f.right, RightListing(env, f));
    }
    if multiset(VisitRows(env.Swap(), SwapFrame(f))) == multiset(MirrorRows(VisitRows(env, f))) {
      EveryRowMirrored(env, f);
    }
  }

  lemma EveryRowMirrored(env: Env, f: Frame)
    requires multiset(VisitRows(env.Swap(), SwapFrame(f))) == multiset(MirrorRows(VisitRows(env, f)))
    ensures FramePairsMirror(env, f)
  {
    hide VisitRows, FramePairsMirror, MirrorPending;
    var rows, back := VisitRows(env, f), VisitRows(env.Swap(), SwapFrame(f));
    forall i | 0 <= i < |rows|
      ensures AppearsIn(env.Swap(), MirrorPending(rows[i]))
    {
      assert MirrorRows(rows)[i] in multiset(MirrorRows(rows));
      assert MirrorPending(rows[i]) in back;
    }
    PairsMirrorIfRowsDo(env, f);
  }

  // ----- whole runs -----

  lemma TreesHaveSameShape(env: Env)
    ensures SameShape(Trees(env), Trees(env.Swap()), SwapFrame)
  {
    hide VisitRows, VisitFrames;
    forall f
      ensures Trees(env.Swap()).kids(SwapFrame(f)) == Map(SwapFrame, Trees(env).kids(f))
      ensures |Trees(env.Swap()).rows(SwapFrame(f))| == |Trees(env).rows(f)|
    {
      VisitFramesMirror(env, f);
      VisitRowsMirror(env, f);
    }
  }

  /** No row of any visit is published on a provisional decision. */
  lemma VisitRowsAreFinal(env: Env, f: Frame)
    ensures forall i :: 0 <= i < |VisitRows(env, f)| ==> Final(VisitRows(env, f)[i])
  {
    hide ListVisible, SidesFor, PairRow, Indexed, Unique, Collisions, CollidedAmong, Merge;
    forall l, r
      ensures Final(PairRow(env, l, r))
    {
      PairRowIsFinal(env, l, r);
    }
  }

  lemma RowsAreFinal(env: Env, fuel: nat, todo: seq<Frame>)
    ensures forall i :: 0 <= i < |Preorder(Trees(env), fuel, todo)| ==> Final(Preorder(Trees(env), fuel, todo)[i])
  {
    hide VisitRows, VisitFrames, Preorder, Final;
    forall f, i | 0 <= i < |Trees(env).rows(f)|
      ensures Final(Trees(env).rows(f)[i])
    {
      VisitRowsAreFinal(env, f);
    }
    EveryRow(Trees(env), fuel, todo, Final);
  }

  lemma NumberedMirrors(enc: Encoding, rows: seq<PendingRow>, back: seq<PendingRow>)
    requires |rows| == |back|
    requires forall i :: 0 <= i < |rows| ==> Final(rows[i])
    requires forall i :: 0 <= i < |back| ==> Final(back[i])
    ensures Numbered(enc, back, 0) == Map(MirrorRow, Numbered(enc, rows, 0)) <==> back == MirrorRows(rows)
  {
    hide RowOf, MirrorRow, MirrorPending, Final;
    var there, here := Numbered(enc, back, 0), Map(MirrorRow, Numbered(enc, rows, 0));
    forall i | 0 <= i < |rows|
      ensures there[i] == here[i] <==> back[i] == MirrorPending(rows[i])
    {
      RowOfMirrors(enc, rows[i], i + 1);
      MirrorIsFinal(rows[i]);
      if there[i] == here[i] {
        RowOfInjective(enc, back[i], MirrorPending(rows[i]), i + 1);
      }
    }
    if back == MirrorRows(rows) {
      assert there == here;
    }
    if there == here {
      assert back == MirrorRows(rows);
    }
  }

  lemma MirrorIsFinal(row: PendingRow)
    requires Final(row)
    ensures Final(MirrorPending(row))
  {
  }

  /**
    Comparing the other way round gives exactly the mirrored rows, with the same ids, if and
    only if every visited directory mirrors: it fails on at most one side, collides on at
    most one side, and each of its pairs mirrors.
   */
  lemma SymmetryInOrder(env: Env, fuel: nat, left: VPath, right: VPath)
    ensures (FullRows(env.Swap(), fuel, RootFrame(right, left)) ==
             Map(MirrorRow, FullRows(env, fuel, RootFrame(left, right)))) <==>
            AllVisited(Trees(env), fuel, [RootFrame(left, right)], f => FrameMirrors(env, f))
    ensures Fits(Trees(env.Swap()), fuel, [RootFrame(right, left)]) <==> Fits(Trees(env), fuel, [RootFrame(left, right)])
  {
    hide VisitRows, VisitFrames, FrameMirrors, Preorder, AllVisited, RowOf, MirrorRow, MirrorPending, Fits;
    var t, u, root := Trees(env), Trees(env.Swap()), RootFrame(left, right);
    assert Map(SwapFrame, [root]) == [RootFrame(right, left)];
    TreesHaveSameShape(env);
    SameLength(t, u, SwapFrame, fuel, [root]);
    RowsMatchIffMirrored(env, fuel, [root]);
    RowsAreFinal(env, fuel, [root]);
    RowsAreFinal(env.Swap(), fuel, [RootFrame(right, left)]);
    NumberedMirrors(env.enc, Preorder(t, fuel, [root]), Preorder(u, fuel, [RootFrame(right, left)]));
  }

  lemma RowsMatchIffMirrored(env: Env, fuel: nat, todo: seq<Frame>)
    ensures Preorder(Trees(env.Swap()), fuel, Map(SwapFrame, todo)) == MirrorRows(Preorder(Trees(env), fuel, todo)) <==>
            AllVisited(Trees(env), fuel, todo, f => FrameMirrors(env, f))
  {
    hide VisitRows, VisitFrames, FrameMirrors, Preorder, AllVisited, MirrorPending;
    TreesHaveSameShape(env);
    var p := f => FrameMirrors(env, f);
    forall f
      ensures p(f) <==> Trees(env.Swap()).rows(SwapFrame(f)) == Map(MirrorPending, Trees(env).rows(f))
    {
      VisitRowsMirror(env, f);
    }
    MatchesEverywhere(Trees(env), Trees(env.Swap()), SwapFrame, MirrorPending, p, fuel, todo);
  }

  /**
    Up to order and ids, the rows mirror if and only if every pair of every visited directory
    does: no failure to mirror can be made up for by another row.
   */
  lemma SymmetryUpToOrder(env: Env, fuel: nat, todo: seq<Frame>)
    ensures (multiset(Preorder(Trees(env.Swap()), fuel, Map(SwapFrame, todo))) ==
             multiset(MirrorRows(Preorder(Trees(env), fuel, todo)))) <==>
            AllVisited(Trees(env), fuel, todo, f => FramePairsMirror(env, f))
  {
    hide VisitRows, VisitFrames, FramePairsMirror, Preorder, AllVisited, MirrorPending;
    TreesHaveSameShape(env);
    var p := f => FramePairsMirror(env, f);
    forall f
      ensures p(f) ==>
                multiset(Trees(env.Swap()).rows(SwapFrame(f))) == multiset(Map(MirrorPending, Trees(env).rows(f)))
    {
      VisitRowsMirror(env, f);
    }
    if AllVisited(Trees(env), fuel, todo, p) {
      MatchesUpToOrder(Trees(env), Trees(env.Swap()), SwapFrame, MirrorPending, p, fuel, todo);
    }
    if multiset(Preorder(Trees(env.Swap()), fuel, Map(SwapFrame, todo)))
         == multiset(MirrorRows(Preorder(Trees(env), fuel, todo))) {
      OnlyIfPairsMirror(env, fuel, todo, p);
    }
  }

  lemma OnlyIfPairsMirror(env: Env, fuel: nat, todo: seq<Frame>, p: Frame -> bool)
    requires forall f :: p(f) == FramePairsMirror(env, f)
    requires multiset(Preorder(Trees(env.Swap()), fuel, Map(SwapFrame, todo)))
          == multiset(MirrorRows(Preorder(Trees(env), fuel, todo)))
    ensures AllVisited(Trees(env), fuel, todo, p)
  {
    hide VisitRows, VisitFrames, FramePairsMirror, Preorder, AllVisited, MirrorPending, AppearsIn;
    var rows, back := Preorder(Trees(env), fuel, todo), Preorder(Trees(env.Swap()), fuel, Map(SwapFrame, todo));
    RowsAppear(env.Swap(), fuel, Map(SwapFrame, todo));
    var q := row => AppearsIn(env.Swap(), MirrorPending(row));
    forall i | 0 <= i < |rows|
      ensures q(rows[i])
    {
      assert MirrorRows(rows)[i] in multiset(MirrorRows(rows));
      assert MirrorPending(rows[i]) in back;
    }
    forall f | forall i :: 0 <= i < |Trees(env).rows(f)| ==> q(Trees(env).rows(f)[i])
      ensures p(f)
    {
      assert forall i :: 0 <= i < |VisitRows(env, f)| ==> q(VisitRows(env, f)[i]);
      PairsMirrorIfRowsDo(env, f);
    }
    VisitedByRows(Trees(env), fuel, todo, q, p);
  }

  /** Each row of a walk is a row of some visit. */
  lemma RowsAppear(env: Env, fuel: nat, todo: seq<Frame>)
    ensures forall i :: 0 <= i < |Preorder(Trees(env), fuel, todo)| ==>
              AppearsIn(env, Preorder(Trees(env), fuel, todo)[i])
  {
    hide VisitRows, VisitFrames, Preorder;
    var a := row => AppearsIn(env, row);
    forall f, i | 0 <= i < |Trees(env).rows(f)|
      ensures a(Trees(env).rows(f)[i])
    {
      assert Trees(env).rows(f)[i] in VisitRows(env, f);
    }
    EveryRow(Trees(env), fuel, todo, a);
  }

  /** In this directory no stat of a paired file fails and no two paired files are both unreadable. */
  predicate FrameAnswers(env: Env, f: Frame) {
    BothListed(env, f) ==>
      var items := PairedOf(env, f).Items();
      forall i :: 0 <= i < |items| && items[i].Both? ==> Answers(env, items[i].l, items[i].r)
  }

  /** The promised symmetry: if every visited directory answers, rows mirror up to order. */
  lemma SymmetryWithoutFailures(env: Env, fuel: nat, todo: seq<Frame>)
    requires AllVisited(Trees(env), fuel, todo, f => FrameAnswers(env, f))
    ensures multiset(Preorder(Trees(env.Swap()), fuel, Map(SwapFrame, todo)))
         == multiset(MirrorRows(Preorder(Trees(env), fuel, todo)))
  {
    hide VisitRows, VisitFrames, Preorder, AllVisited, MirrorPending, ListVisible, SidesFor, PairMirrors, Answers;
    var p, q := f => FrameAnswers(env, f), f => FramePairsMirror(env, f);
    forall f
      ensures p(f) ==> q(f)
    {
      forall l, r
        ensures Answers(env, l, r) ==> PairMirrors(env, l, r)
      {
        if Answers(env, l, r) {
          NoFailureMirrors(env, l, r);
        }
      }
    }
    VisitedWeaker(Trees(env), fuel, todo, p, q);
    SymmetryUpToOrder(env, fuel, todo);
  }
}
