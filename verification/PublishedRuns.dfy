/**
  Every row of every visit and of every run: which of the listed entries it is about, by the
  keys of their names, and what it says of them, up to the rows the walk has delivered.
 */
module PublishedRuns {
  import opened Proto
  import opened ByteOrder
  import opened Vfs
  import opened Key
  import opened Cascade
  import opened Pair
  import opened PairTheorems
  import opened Listing
  import opened Visit
  import opened Traversal
  import opened Bounds
  import opened Walk
  import opened ListingOrder
  import opened Descent
  import opened Mirror
  import opened MirrorRuns
  import opened Truth
  import opened Published
  import Hash

  // ----- keys of names, in one directory -----

  /** How names fold in this directory: as its two locations declare, or as the caller said if one does not. */
  function ModeIn(env: Env, f: Frame): FoldMode {
    var l := if f.left.Some? then env.left.capabilitiesAt(f.left.value.path) else None;
    var r := if f.right.Some? then env.right.capabilitiesAt(f.right.value.path) else None;
    if l.Some? && r.Some? then
      if l.value.fullFold || r.value.fullFold then Full
      else if l.value.caseSensitive && r.value.caseSensitive then NoFold
      else Simple
    else if env.sides.left == Full || env.sides.right == Full then Full
    else if env.sides.left == NoFold && env.sides.right == NoFold then NoFold
    else Simple
  }

  lemma ModeIsFold(env: Env, f: Frame)
    ensures SidesFor(env, f).Fold() == ModeIn(env, f)
  {
  }

  function KeyIn(env: Env, f: Frame, e: Entry): Bytes {
    env.enc.nameKey(LastSegment(e.path), ModeIn(env, f))
  }

  function Unfolded(env: Env, e: Entry): Bytes {
    env.enc.nameKey(LastSegment(e.path), NoFold)
  }

  lemma KeyInIsKeyOf(env: Env, f: Frame, e: Entry)
    ensures KeyOf(env.enc, e, SidesFor(env, f)) == KeyIn(env, f, e)
    ensures KeyOf(env.enc, e, BOTH_CASE_SENSITIVE) == Unfolded(env, e)
  {
    hide SidesFor, ModeIn;
    ModeIsFold(env, f);
  }

  /** How many of the entries have key `k` in this directory. */
  function CountIn(env: Env, f: Frame, entries: seq<Entry>, k: Bytes): nat {
    multiset(Map(e => KeyIn(env, f, e), entries))[k]
  }

  /** How many of the entries have key `k`, and unfolded key `raw`. */
  function TwinsIn(env: Env, f: Frame, entries: seq<Entry>, k: Bytes, raw: Bytes): nat {
    multiset(Map(e => (KeyIn(env, f, e), Unfolded(env, e)), entries))[(k, raw)]
  }

  lemma HoldersIsCountIn(env: Env, f: Frame, entries: seq<Entry>, k: Bytes)
    ensures Holders(env.enc, entries, SidesFor(env, f), k) == CountIn(env, f, entries, k)
  {
    hide SidesFor, KeyIn, KeyOf;
    var ks := Keys(env.enc, entries, SidesFor(env, f));
    forall i | 0 <= i < |entries|
      ensures ks[i] == KeyIn(env, f, entries[i])
    {
      KeyInIsKeyOf(env, f, entries[i]);
    }
    assert ks == Map(e => KeyIn(env, f, e), entries);
    HoldersIsCount(ks, k);
  }

  /** Why an entry collides: normalization if another one has the same key even unfolded, case otherwise. */
  function WhyAmbiguous(env: Env, f: Frame, entries: seq<Entry>, e: Entry): Reason {
    if TwinsIn(env, f, entries, KeyIn(env, f, e), Unfolded(env, e)) >= 2 then Normalization else CaseFold
  }

  lemma ReasonIsWhy(env: Env, f: Frame, entries: seq<Entry>, i: nat)
    requires i < |entries| && CountIn(env, f, entries, KeyIn(env, f, entries[i])) >= 2
    ensures Indexed(env.enc, entries, SidesFor(env, f)).reasons[i] == Some(WhyAmbiguous(env, f, entries, entries[i]))
  {
    hide SidesFor, KeyIn, KeyOf, Unfolded, CountIn;
    var sides, e := SidesFor(env, f), entries[i];
    ReasonsByCount(env.enc, entries, sides, i);
    KeyInIsKeyOf(env, f, e);
    HoldersIsCountIn(env, f, entries, KeyIn(env, f, e));
    HoldersIsCount(Keys(env.enc, entries, sides), KeyIn(env, f, e));
    forall j | 0 <= j < |entries|
      ensures KeyPairs(env.enc, entries, sides)[j] == (KeyIn(env, f, entries[j]), Unfolded(env, entries[j]))
    {
      KeyInIsKeyOf(env, f, entries[j]);
    }
    assert KeyPairs(env.enc, entries, sides) == Map(x => (KeyIn(env, f, x), Unfolded(env, x)), entries);
  }

  // ----- the rows of a visit -----

  /** The first of the entries with key `k`. */
  ghost predicate FirstWith(env: Env, f: Frame, entries: seq<Entry>, k: Bytes, i: nat) {
    && i < |entries| && KeyIn(env, f, entries[i]) == k
    && forall j :: 0 <= j < i ==> KeyIn(env, f, entries[j]) != k
  }

  /**
    A row about one listed entry `e` of `mine`, the other side listing `theirs`: only here if
    its key is held once here and nowhere there; ambiguous here if it collides here; else
    ambiguous there, for the reason of the first entry that holds its key there.
   */
  ghost predicate OneSidedFits(env: Env, f: Frame, mine: seq<Entry>, theirs: seq<Entry>, e: Entry, side: Side,
                               row: CompareRow) {
    var k := KeyIn(env, f, e);
    var here, there := CountIn(env, f, mine, k), CountIn(env, f, theirs, k);
    && e in mine
    && (here >= 2 ==> Reports(row, Ambiguous, Presence, WhyAmbiguous(env, f, mine, e), side))
    && (here == 1 ==> there != 1)
    && (here == 1 && there == 0 ==> Says(row, if side == Left then OnlyLeft else OnlyRight, Presence, Certain, None))
    && (here == 1 && there >= 2 ==>
          exists i: nat :: FirstWith(env, f, theirs, k, i) &&
            Reports(row, Ambiguous, Presence, WhyAmbiguous(env, f, theirs, theirs[i]), Flip(side)))
  }

  /** A row about a pair: two entries of one key that each side holds once, and what the pair's row must be. */
  ghost predicate TwoSidedFits(env: Env, f: Frame, lefts: seq<Entry>, rights: seq<Entry>, l: Entry, r: Entry, row: CompareRow) {
    && l in lefts && r in rights && KeyIn(env, f, l) == KeyIn(env, f, r)
    && CountIn(env, f, lefts, KeyIn(env, f, l)) == 1 && CountIn(env, f, rights, KeyIn(env, f, r)) == 1
    && PairFits(env, l, r, row)
  }

  /** A row of a directory both of whose listings succeeded. */
  ghost predicate ListedFits(env: Env, f: Frame, lefts: seq<Entry>, rights: seq<Entry>, row: CompareRow) {
    match (row.left, row.right)
    case (Some(e), None) => OneSidedFits(env, f, lefts, rights, e, Left, row)
    case (None, Some(e)) => OneSidedFits(env, f, rights, lefts, e, Right, row)
    case (Some(_), Some(_)) => exists l, r :: TwoSidedFits(env, f, lefts, rights, l, r, row)
    case (None, None) => false
  }

  /** A row of a directory that could not be compared: it names the side that failed, and why. */
  predicate FailedFits(env: Env, f: Frame, row: CompareRow) {
    || (&& LeftListing(env, f).CannotList? && row.left == f.left && row.right == None
        && Reports(row, Error, Presence, LeftListing(env, f).reason, Left))
    || (&& RightListing(env, f).CannotList? && row.right == f.right && row.left == None
        && Reports(row, Error, Presence, RightListing(env, f).reason, Right))
  }

  ghost predicate RowFits(env: Env, f: Frame, row: CompareRow) {
    && Marked(env.enc, row)
    && if BothListed(env, f) then ListedFits(env, f, LeftListing(env, f).entries, RightListing(env, f).entries, row)
       else FailedFits(env, f, row)
  }

  lemma HeldOnceIsCount(env: Env, f: Frame, entries: seq<Entry>, k: Bytes, e: Entry)
    requires HeldOnce(env.enc, entries, SidesFor(env, f), (k, e))
    ensures e in entries && KeyIn(env, f, e) == k && CountIn(env, f, entries, k) == 1
  {
    hide SidesFor, KeyIn, KeyOf, Holders, CountIn;
    KeyInIsKeyOf(env, f, e);
    HoldersIsCountIn(env, f, entries, k);
  }

  /** The row of a merge item of a pair fits. */
  lemma BothFits(env: Env, f: Frame, item: MergeItem, id: nat)
    requires BothListed(env, f) && item in PairedOf(env, f).Items() && item.Both?
    ensures RowFits(env, f, RowOf(env.enc, PairRow(env, item.l, item.r), id))
  {
    hide ListVisible, SidesFor, Indexed, Unique, Merge, Holders, KeyIn, CountIn, PairRow, RowOf, PairFits, Marked;
    var p, row := PairedOf(env, f), RowOf(env.enc, PairRow(env, item.l, item.r), id);
    ItemBelongs(p, item);
    HeldOnceIsCount(env, f, p.lefts, item.key, item.l);
    HeldOnceIsCount(env, f, p.rights, item.key, item.r);
    PairIsPublished(env, item.l, item.r, id);
    RowIsMarked(env.enc, PairRow(env, item.l, item.r), id);
    PairRowKeepsEntries(env, item.l, item.r);
    assert TwoSidedFits(env, f, p.lefts, p.rights, item.l, item.r, row);
  }

  /** The reason kept for a collided key is that of the first entry holding it. */
  lemma CollidedReason(env: Env, f: Frame, entries: seq<Entry>, k: Bytes) returns (i: nat)
    requires CountIn(env, f, entries, k) >= 2
    ensures FirstWith(env, f, entries, k, i)
    ensures var m := CollidedAmong(env.enc, Collisions(Indexed(env.enc, entries, SidesFor(env, f))), SidesFor(env, f));
            k in m && m[k] == WhyAmbiguous(env, f, entries, entries[i])
  {
    hide SidesFor, KeyIn, KeyOf, CountIn, WhyAmbiguous, Collisions, Holders, CollidedAmong, Indexed;
    var sides := SidesFor(env, f);
    var idx := Indexed(env.enc, entries, sides);
    var cs := Collisions(idx);
    i := FirstHolder(env, f, entries, k);
    var at := CollisionsInOrder(env.enc, entries, sides);
    IndexedEntries(env.enc, entries, sides);
    forall j | 0 <= j < |entries|
      ensures KeyOf(env.enc, entries[j], sides) == KeyIn(env, f, entries[j])
    {
      KeyInIsKeyOf(env, f, entries[j]);
    }
    HoldersIsCountIn(env, f, entries, k);
    assert i in at;
    var n :| 0 <= n < |at| && at[n] == i;
    assert FirstOfItsKey(env.enc, cs, sides, n);
    FirstReasonIsKept(env.enc, cs, sides, n);
    ReasonIsWhy(env, f, entries, i);
  }

  lemma IndexedEntries(enc: Encoding, entries: seq<Entry>, sides: Sides)
    ensures Indexed(enc, entries, sides).entries == entries
  {
  }

  lemma FirstHolder(env: Env, f: Frame, entries: seq<Entry>, k: Bytes) returns (i: nat)
    requires CountIn(env, f, entries, k) >= 1
    ensures FirstWith(env, f, entries, k, i)
  {
    hide KeyIn;
    var ks := Map(e => KeyIn(env, f, e), entries);
    assert k in multiset(ks);
    assert k in ks;
    var j :| 0 <= j < |ks| && ks[j] == k;
    i := 0;
    while KeyIn(env, f, entries[i]) != k
      invariant i <= j
      invariant forall m :: 0 <= m < i ==> KeyIn(env, f, entries[m]) != k
      decreases j - i
    {
      i := i + 1;
    }
  }

  /** The row of an entry that only one side holds once fits, whether or not the other side collides. */
  lemma OneSideFits(env: Env, f: Frame, mine: seq<Entry>, theirs: seq<Entry>, k: Bytes, e: Entry, side: Side, id: nat)
    requires HeldOnce(env.enc, mine, SidesFor(env, f), (k, e))
    requires Holders(env.enc, theirs, SidesFor(env, f), k) != 1 && side != UnknownSide
    ensures var collided := CollidedAmong(env.enc, Collisions(Indexed(env.enc, theirs, SidesFor(env, f))), SidesFor(env, f));
            var l, r := if side == Left then Some(e) else None, if side == Left then None else Some(e);
            OneSidedFits(env, f, mine, theirs, e, side, RowOf(env.enc, SideRow(l, r, Lookup(collided, k), Flip(side)), id))
  {
    hide SidesFor, KeyIn, CountIn, WhyAmbiguous, Collisions, Holders, CollidedAmong, Indexed, PairTransformOf;
    HeldOnceIsCount(env, f, mine, k, e);
    HoldersIsCountIn(env, f, theirs, k);
    CollidedKeysSpec(env.enc, theirs, SidesFor(env, f), k);
    if CountIn(env, f, theirs, k) >= 2 {
      var i := CollidedReason(env, f, theirs, k);
    }
  }

  lemma ItemFits(env: Env, f: Frame, item: MergeItem, id: nat)
    requires BothListed(env, f) && item in PairedOf(env, f).Items()
    ensures RowFits(env, f, RowOf(env.enc, ItemRow(env, PairedOf(env, f).Clashes(), item), id))
  {
    hide ListVisible, SidesFor, Indexed, Unique, Merge, Collisions, CollidedAmong, Holders, OneSidedFits, RowOf, PairRow, Marked, HeldOnce;
    var p := PairedOf(env, f);
    ItemBelongs(p, item);
    RowIsMarked(env.enc, ItemRow(env, p.Clashes(), item), id);
    match item
    case LeftOnly(k, e) => OneSideFits(env, f, p.lefts, p.rights, k, e, Left, id);
    case RightOnly(k, e) => OneSideFits(env, f, p.rights, p.lefts, k, e, Right, id);
    case Both(_, _, _) => BothFits(env, f, item, id);
  }

  /** The row of the `n`-th collision of one side fits. */
  lemma ClashFits(env: Env, f: Frame, mine: seq<Entry>, theirs: seq<Entry>, n: nat, side: Side, id: nat)
    requires n < |Collisions(Indexed(env.enc, mine, SidesFor(env, f)))| && side != UnknownSide
    ensures var c := Collisions(Indexed(env.enc, mine, SidesFor(env, f)))[n];
            OneSidedFits(env, f, mine, theirs, c.0, side, RowOf(env.enc, CollisionRow(c, side), id))
  {
    hide SidesFor, KeyIn, KeyOf, CountIn, WhyAmbiguous, Collisions, Holders, Indexed, PairTransformOf;
    var sides := SidesFor(env, f);
    var at := CollisionsInOrder(env.enc, mine, sides);
    IndexedEntries(env.enc, mine, sides);
    var i := at[n];
    assert i in at;
    KeyInIsKeyOf(env, f, mine[i]);
    HoldersIsCountIn(env, f, mine, KeyIn(env, f, mine[i]));
    ReasonIsWhy(env, f, mine, i);
  }

  lemma FailedVisitFits(env: Env, f: Frame, i: nat, id: nat)
    requires !BothListed(env, f) && i < |VisitRows(env, f)|
    ensures RowFits(env, f, RowOf(env.enc, VisitRows(env, f)[i], id))
  {
    hide ListAll, Retain, PairTransformOf;
  }

  lemma LeftClashFits(env: Env, f: Frame, n: nat, id: nat)
    requires BothListed(env, f) && n < |Collisions(PairedOf(env, f).LeftIndex())|
    ensures RowFits(env, f, RowOf(env.enc, CollisionRow(Collisions(PairedOf(env, f).LeftIndex())[n], Left), id))
  {
    hide ListVisible, SidesFor, Indexed, Collisions, OneSidedFits, RowOf, Marked;
    var p := PairedOf(env, f);
    RowIsMarked(env.enc, CollisionRow(Collisions(p.LeftIndex())[n], Left), id);
    ClashFits(env, f, p.lefts, p.rights, n, Left, id);
  }

  lemma RightClashFits(env: Env, f: Frame, n: nat, id: nat)
    requires BothListed(env, f) && n < |Collisions(PairedOf(env, f).RightIndex())|
    ensures RowFits(env, f, RowOf(env.enc, CollisionRow(Collisions(PairedOf(env, f).RightIndex())[n], Right), id))
  {
    hide ListVisible, SidesFor, Indexed, Collisions, OneSidedFits, RowOf, Marked;
    var p := PairedOf(env, f);
    RowIsMarked(env.enc, CollisionRow(Collisions(p.RightIndex())[n], Right), id);
    ClashFits(env, f, p.rights, p.lefts, n, Right, id);
  }

  /** Every row of every visit, under any id, fits. */
  lemma VisitFits(env: Env, f: Frame, i: nat, id: nat)
    requires i < |VisitRows(env, f)|
    ensures RowFits(env, f, RowOf(env.enc, VisitRows(env, f)[i], id))
  {
    hide ListVisible, SidesFor, Indexed, Unique, Merge, Collisions, CollidedAmong, ItemRow, RowFits, RowOf, CollisionRow;
    if !BothListed(env, f) {
      FailedVisitFits(env, f, i, id);
    } else {
      var p := PairedOf(env, f);
      var lc, rc, items := Collisions(p.LeftIndex()), Collisions(p.RightIndex()), p.Items();
      if i < |lc| {
        LeftClashFits(env, f, i, id);
      } else if i < |lc| + |rc| {
        RightClashFits(env, f, i - |lc|, id);
      } else {
        assert items[i - |lc| - |rc|] in items;
        ItemFits(env, f, items[i - |lc| - |rc|], id);
      }
    }
  }

  // ----- the order of the rows of a visit -----

  /** The key of the entry a row of this directory shows. */
  function RowKey(env: Env, f: Frame, row: PendingRow): Bytes {
    if row.left.Some? then KeyIn(env, f, row.left.value)
    else if row.right.Some? then KeyIn(env, f, row.right.value) else []
  }

  /** `at` are the positions of the entries whose key is held twice or more, in listing order. */
  ghost predicate CollidingAt(env: Env, f: Frame, entries: seq<Entry>, at: seq<nat>) {
    && (forall m, n :: 0 <= m < n < |at| ==> at[m] < at[n])
    && (forall i :: i in at <==> 0 <= i < |entries| && CountIn(env, f, entries, KeyIn(env, f, entries[i])) >= 2)
    && (forall n :: 0 <= n < |at| ==> at[n] < |entries|)
  }

  lemma CollisionsAt(env: Env, f: Frame, entries: seq<Entry>) returns (at: seq<nat>)
    ensures var cs := Collisions(Indexed(env.enc, entries, SidesFor(env, f)));
            && CollidingAt(env, f, entries, at) && |at| == |cs|
            && forall n :: 0 <= n < |at| ==> cs[n].0 == entries[at[n]]
  {
    hide SidesFor, KeyIn, KeyOf, CountIn, Collisions, Holders, Indexed;
    at := CollisionsInOrder(env.enc, entries, SidesFor(env, f));
    IndexedEntries(env.enc, entries, SidesFor(env, f));
    forall i | 0 <= i < |entries|
      ensures Holders(env.enc, entries, SidesFor(env, f), KeyOf(env.enc, entries[i], SidesFor(env, f)))
           == CountIn(env, f, entries, KeyIn(env, f, entries[i]))
    {
      KeyInIsKeyOf(env, f, entries[i]);
      HoldersIsCountIn(env, f, entries, KeyIn(env, f, entries[i]));
    }
  }

  lemma ItemRowKey(env: Env, f: Frame, item: MergeItem)
    requires BothListed(env, f) && item in PairedOf(env, f).Items()
    ensures RowKey(env, f, ItemRow(env, PairedOf(env, f).Clashes(), item)) == item.key
  {
    hide ListVisible, SidesFor, Indexed, Unique, Merge, Collisions, CollidedAmong, Holders, PairRow, CountIn, KeyIn;
    var p := PairedOf(env, f);
    ItemBelongs(p, item);
    match item
    case LeftOnly(k, e) => HeldOnceIsCount(env, f, p.lefts, k, e);
    case RightOnly(k, e) => HeldOnceIsCount(env, f, p.rights, k, e);
    case Both(k, l, r) =>
      HeldOnceIsCount(env, f, p.lefts, k, l);
      PathsOfPair(env, l, r);
      SameKey(env, f, l, PairRow(env, l, r).left.value);
  }

  lemma SameKey(env: Env, f: Frame, a: Entry, b: Entry)
    requires a.path == b.path
    ensures KeyIn(env, f, a) == KeyIn(env, f, b)
  {
  }

  /**
    The order of a directory's rows: the left's colliding entries in listing order, then the
    right's, then everything else in strictly ascending byte order of keys.
   */
  lemma RowsAreInOrder(env: Env, f: Frame) returns (atL: seq<nat>, atR: seq<nat>)
    requires BothListed(env, f)
    ensures var rows, lefts, rights := VisitRows(env, f), LeftListing(env, f).entries, RightListing(env, f).entries;
            && CollidingAt(env, f, lefts, atL) && CollidingAt(env, f, rights, atR)
            && |atL| + |atR| <= |rows|
            && (forall n :: 0 <= n < |atL| ==> rows[n].left == Some(lefts[atL[n]]) && rows[n].right == None)
            && (forall n :: 0 <= n < |atR| ==>
                  rows[|atL| + n].right == Some(rights[atR[n]]) && rows[|atL| + n].left == None)
            && (forall i, j :: |atL| + |atR| <= i < j < |rows| ==>
                  Less(RowKey(env, f, rows[i]), RowKey(env, f, rows[j])))
  {
    hide ListVisible, SidesFor, Indexed, Unique, Merge, Collisions, CollidedAmong, ItemRow, CollidingAt, RowKey, Less;
    var p, rows := PairedOf(env, f), VisitRows(env, f);
    atL := CollisionsAt(env, f, p.lefts);
    atR := CollisionsAt(env, f, p.rights);
    var n := |atL| + |atR|;
    forall i, j | n <= i < j < |rows|
      ensures Less(RowKey(env, f, rows[i]), RowKey(env, f, rows[j]))
    {
      KeysAscend(env, f, i - n, j - n);
    }
  }

  lemma KeysAscend(env: Env, f: Frame, i: nat, j: nat)
    requires BothListed(env, f) && i < j < |PairedOf(env, f).Items()|
    ensures var p := PairedOf(env, f);
            Less(RowKey(env, f, ItemRow(env, p.Clashes(), p.Items()[i])), RowKey(env, f, ItemRow(env, p.Clashes(), p.Items()[j])))
  {
    hide ListVisible, SidesFor, Indexed, Unique, Merge, Collisions, CollidedAmong, ItemRow, RowKey, Less;
    var p := PairedOf(env, f);
    var items := p.Items();
    ItemsAscend(p);
    assert items[i] in items && items[j] in items;
    ItemRowKey(env, f, items[i]);
    ItemRowKey(env, f, items[j]);
    assert Less(ItemKeys(items)[i], ItemKeys(items)[j]);
  }

  /** A directory that could not be compared yields one row per side that failed, the left's first. */
  lemma FailedRowsInOrder(env: Env, f: Frame)
    requires !BothListed(env, f)
    ensures var rows, l, r := VisitRows(env, f), LeftListing(env, f).CannotList?, RightListing(env, f).CannotList?;
            && |rows| == (if l && r then 2 else 1)
            && (forall i :: 0 <= i < |rows| ==> rows[i].Flagged?)
            && (l ==> rows[0].side == Left)
            && (r ==> rows[|rows| - 1].side == Right)
  {
    hide ListAll, Retain;
  }

  // ----- the rows of a run -----

  /** The row fits some directory. */
  ghost predicate Fitting(env: Env, row: CompareRow) {
    exists f: Frame :: RowFits(env, f, row)
  }

  /**
    Every row any number of visits publish, whatever the providers answer, is numbered by its
    place and is exactly what the entries of some directory make it.
   */
  lemma EveryPublishedRowFits(env: Env, n: nat, todo: seq<Frame>, i: nat)
    requires i < |Numbered(env.enc, RowsAfter(Trees(env), n, todo), 0)|
    ensures var row := Numbered(env.enc, RowsAfter(Trees(env), n, todo), 0)[i];
            row.id == i + 1 && Fitting(env, row)
  {
    hide VisitRows, VisitFrames, RowsAfter, Agenda, RowOf, RowFits, Marked;
    var rows := RowsAfter(Trees(env), n, todo);
    RunRowsAppear(env, n, todo);
    assert AppearsIn(env, rows[i]);
    var f: Frame :| rows[i] in VisitRows(env, f);
    var k :| 0 <= k < |VisitRows(env, f)| && VisitRows(env, f)[k] == rows[i];
    VisitFits(env, f, k, i + 1);
    RowIsMarked(env.enc, rows[i], i + 1);
  }

  /** And so are the rows a walk has delivered, in every reachable state. */
  lemma DeliveredRowsFit(w: Walk, i: nat)
    requires w.Valid() && i < |w.delivered|
    ensures w.delivered[i].id == i + 1 && Fitting(w.env, w.delivered[i])
  {
    hide VisitRows, VisitFrames, RowsAfter, Agenda, Fitting, Numbered;
    assert w.delivered[i] == w.Rows()[i];
    EveryPublishedRowFits(w.env, w.visits, [w.root], i);
  }

  // ----- truth of what is published -----

  /** What a published row about two files may claim of their true bytes and shown dates. */
  ghost predicate ClaimsTruly(env: Env, worldL: VPath -> Bytes, worldR: VPath -> Bytes, row: CompareRow) {
    row.left.Some? && row.right.Some? && row.left.value.kind == File && row.right.value.kind == File ==>
      var l, r := row.left.value, row.right.value;
      && (row.verdict == Different && row.confidence == Certain ==> worldL(l.path) != worldR(r.path))
      && (row.verdict == Same && row.criterion == Criterion.Hash ==>
            env.digest(worldL(l.path)) == env.digest(worldR(r.path)))
      && (row.verdict == Same && row.confidence == Certain ==> row.criterion == Criterion.Hash)
      && (row.newer == Some(Left) ==>
            l.mtimeMs.Some? && r.mtimeMs.Some? && l.mtimeMs.value > r.mtimeMs.value + env.opts.mtimeToleranceMs)
      && (row.newer == Some(Right) ==>
            l.mtimeMs.Some? && r.mtimeMs.Some? && r.mtimeMs.value > l.mtimeMs.value + env.opts.mtimeToleranceMs)
      && (row.verdict != Error && SizesDiffer(l, r, env.opts) ==> row.verdict == Different)
  }

  lemma FilesClaimTruly(env: Env, worldL: VPath -> Bytes, worldR: VPath -> Bytes, l: Entry, r: Entry, row: CompareRow)
    requires TrueTo(env.left, worldL) && TrueTo(env.right, worldR)
    requires TrueSize(worldL, l) && TrueSize(worldR, r) && row.left == Some(l) && row.right == Some(r)
    requires l.kind == File && r.kind == File && FilesSay(env, l, r, row)
    ensures ClaimsTruly(env, worldL, worldR, row)
  {
  }

  lemma StattedIsTrue(p: Provider, world: VPath -> Bytes, e: Entry)
    requires TrueTo(p, world) && TrueSize(world, e)
    ensures TrueSize(world, Statted(p, e)) && Statted(p, e).path == e.path && Statted(p, e).kind == e.kind
  {
  }

  lemma PairClaimsTruly(env: Env, worldL: VPath -> Bytes, worldR: VPath -> Bytes, l: Entry, r: Entry, row: CompareRow)
    requires TrueTo(env.left, worldL) && TrueTo(env.right, worldR)
    requires TrueSize(worldL, l) && TrueSize(worldR, r) && PairFits(env, l, r, row)
    ensures ClaimsTruly(env, worldL, worldR, row)
  {
    hide TrueTo, TrueSize, FirstFailure, IsAsked, Statted, FilesSay;
    StattedIsTrue(env.left, worldL, l);
    StattedIsTrue(env.right, worldR, r);
    if FirstFailure(env, l, r) == None && l.kind == File && r.kind == File {
      FilesClaimTruly(env, worldL, worldR, row.left.value, row.right.value, row);
    }
  }

  /**
    Over every run, with true sizes and contents, no published row about two files is false:
    certain difference means different bytes, equality by hash equal digests, a newer side a
    later date beyond the tolerance, and two known different sizes are called different.
   */
  lemma EveryPublishedRowIsTrue(env: Env, worldL: VPath -> Bytes, worldR: VPath -> Bytes, n: nat, todo: seq<Frame>, i: nat)
    requires TrueTo(env.left, worldL) && TrueTo(env.right, worldR)
    requires ListsTruly(env, env.left, worldL) && ListsTruly(env, env.right, worldR)
    requires i < |Numbered(env.enc, RowsAfter(Trees(env), n, todo), 0)|
    ensures var row := Numbered(env.enc, RowsAfter(Trees(env), n, todo), 0)[i];
            row.id == i + 1 && ClaimsTruly(env, worldL, worldR, row)
  {
    hide VisitRows, VisitFrames, RowsAfter, Agenda, Numbered, TrueTo, ClaimsTruly, ListVisible, OneSidedFits, PairFits, KeyIn, CountIn, Marked;
    EveryPublishedRowFits(env, n, todo, i);
    var row := Numbered(env.enc, RowsAfter(Trees(env), n, todo), 0)[i];
    var f: Frame :| RowFits(env, f, row);
    if row.left.Some? && row.right.Some? {
      var lefts, rights := LeftListing(env, f).entries, RightListing(env, f).entries;
      var l, r :| TwoSidedFits(env, f, lefts, rights, l, r, row);
      PairClaimsTruly(env, worldL, worldR, l, r, row);
    } else {
      OneSidedClaimsNothing(env, worldL, worldR, row);
    }
  }

  lemma OneSidedClaimsNothing(env: Env, worldL: VPath -> Bytes, worldR: VPath -> Bytes, row: CompareRow)
    requires row.left.None? || row.right.None?
    ensures ClaimsTruly(env, worldL, worldR, row)
  {
  }
}
