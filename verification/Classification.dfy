/**
  Per directory: every visible entry comes out in exactly one row, and which kind of row it
  is depends only on how many entries hold its key on each side.
 */
module Classification {
  import opened Proto
  import opened ByteOrder
  import opened Key
  import opened Pair
  import opened PairTheorems
  import opened Listing
  import opened Visit
  import opened Traversal
  import opened Multisets

  // ----- a listing splits into what collides and what pairs -----

  function ClashEntries(cs: seq<(Entry, Reason)>): (es: seq<Entry>)
    ensures |es| == |cs|
    ensures forall i :: 0 <= i < |cs| ==> es[i] == cs[i].0
  {
    seq(|cs|, i requires 0 <= i < |cs| => cs[i].0)
  }

  /** The first `n` entries without those that collide. */
  function LonersUpTo(idx: SideIndex, n: nat): seq<Entry>
    requires idx.Valid() && n <= |idx.entries|
  {
    if n == 0 then []
    else LonersUpTo(idx, n - 1) + (if idx.reasons[n - 1].None? then [idx.entries[n - 1]] else [])
  }

  lemma OneMoreEntry(idx: SideIndex, n: nat)
    requires idx.Valid() && n < |idx.entries|
    ensures idx.entries[..n + 1] == idx.entries[..n] + [idx.entries[n]]
    ensures idx.reasons[n].Some? ==>
              && ClashEntries(CollisionsUpTo(idx, n + 1)) == ClashEntries(CollisionsUpTo(idx, n)) + [idx.entries[n]]
              && LonersUpTo(idx, n + 1) == LonersUpTo(idx, n)
    ensures idx.reasons[n].None? ==>
              && ClashEntries(CollisionsUpTo(idx, n + 1)) == ClashEntries(CollisionsUpTo(idx, n))
              && LonersUpTo(idx, n + 1) == LonersUpTo(idx, n) + [idx.entries[n]]
  {
  }

  lemma NoEntries(idx: SideIndex)
    requires idx.Valid()
    ensures ClashEntries(CollisionsUpTo(idx, 0)) == [] && LonersUpTo(idx, 0) == []
  {
  }

  lemma {:induction false} SplitUpTo(idx: SideIndex, n: nat)
    requires idx.Valid() && n <= |idx.entries|
    ensures multiset(idx.entries[..n])
         == multiset(ClashEntries(CollisionsUpTo(idx, n))) + multiset(LonersUpTo(idx, n))
  {
    hide CollisionsUpTo, LonersUpTo, ClashEntries;
    if n == 0 {
      NoEntries(idx);
    } else {
      var e, all := idx.entries[n - 1], idx.entries[..n - 1];
      var clashes, loners := ClashEntries(CollisionsUpTo(idx, n - 1)), LonersUpTo(idx, n - 1);
      SplitUpTo(idx, n - 1);
      OneMoreEntry(idx, n - 1);
      Snoc(all, e);
      MoveIn(multiset(all), multiset(clashes), multiset(loners), e);
      if idx.reasons[n - 1].Some? {
        Snoc(clashes, e);
      } else {
        Snoc(loners, e);
      }
    }
  }

  lemma {:induction false} LonersSpec(idx: SideIndex, n: nat)
    requires idx.Valid() && n <= |idx.entries|
    ensures forall x :: x in LonersUpTo(idx, n) <==>
              exists i :: 0 <= i < n && idx.entries[i] == x && idx.reasons[i].None?
  {
    if n > 0 {
      LonersSpec(idx, n - 1);
    }
  }

  lemma {:induction false} LonersDistinct(idx: SideIndex, n: nat)
    requires idx.Valid() && n <= |idx.entries|
    requires forall i, j :: 0 <= i < j < |idx.entries| && idx.reasons[i].None? ==> idx.entries[i] != idx.entries[j]
    ensures Distinct(LonersUpTo(idx, n))
  {
    if n > 0 {
      LonersDistinct(idx, n - 1);
      LonersSpec(idx, n - 1);
      var before := LonersUpTo(idx, n - 1);
      assert forall i :: 0 <= i < |before| ==> before[i] in before;
    }
  }

  lemma LonersAreUnique(enc: Encoding, entries: seq<Entry>, sides: Sides)
    ensures var idx := Indexed(enc, entries, sides);
            multiset(LonersUpTo(idx, |entries|)) == multiset(SecondsOf(Unique(idx)))
  {
    hide Unique, LonersUpTo, Holders;
    var idx := Indexed(enc, entries, sides);
    var ks := Keys(enc, entries, sides);
    var loners, uniques := LonersUpTo(idx, |entries|), SecondsOf(Unique(idx));
    LonersSpec(idx, |entries|);
    LonersDistinct(idx, |entries|);
    SecondsDistinct(enc, entries, sides);
    forall x
      ensures x in loners <==> x in uniques
    {
      LonerIffUnique(enc, entries, sides, x);
    }
    SameMembers(loners, uniques);
  }

  lemma SecondsDistinct(enc: Encoding, entries: seq<Entry>, sides: Sides)
    ensures Distinct(SecondsOf(Unique(Indexed(enc, entries, sides))))
  {
    hide Unique, Holders, Indexed;
    var us := Unique(Indexed(enc, entries, sides));
    UniqueSpec(enc, entries, sides);
    AscendingDistinct(FirstsOf(us));
    forall i, j | 0 <= i < j < |us|
      ensures us[i].1 != us[j].1
    {
      assert us[i] in us && us[j] in us;
      assert FirstsOf(us)[i] != FirstsOf(us)[j];
    }
  }

  lemma LonerIffUnique(enc: Encoding, entries: seq<Entry>, sides: Sides, x: Entry)
    ensures var idx := Indexed(enc, entries, sides);
            (exists i :: 0 <= i < |entries| && entries[i] == x && idx.reasons[i].None?) <==>
            x in SecondsOf(Unique(idx))
  {
    hide Unique;
    var idx := Indexed(enc, entries, sides);
    var ks, us := Keys(enc, entries, sides), Unique(idx);
    var k := KeyOf(enc, x, sides);
    UniqueSpec(enc, entries, sides);
    if i :| 0 <= i < |entries| && entries[i] == x && idx.reasons[i].None? {
      CollidesIffHeldTwice(ks, i);
      assert HeldOnce(enc, entries, sides, (k, x));
      var j :| 0 <= j < |us| && us[j] == (k, x);
      assert SecondsOf(us)[j] == x;
    }
    if x in SecondsOf(us) {
      var j :| 0 <= j < |us| && SecondsOf(us)[j] == x;
      assert us[j] in us;
      var i :| 0 <= i < |entries| && entries[i] == x;
      CollidesIffHeldTwice(ks, i);
    }
  }

  /** Every entry of the listing collides or pairs, and none does both. */
  lemma ListingSplits(enc: Encoding, entries: seq<Entry>, sides: Sides)
    ensures var idx := Indexed(enc, entries, sides);
            multiset(entries) == multiset(ClashEntries(Collisions(idx)) + SecondsOf(Unique(idx)))
  {
    hide Unique;
    var idx := Indexed(enc, entries, sides);
    SplitUpTo(idx, |entries|);
    assert entries[..|entries|] == entries;
    LonersAreUnique(enc, entries, sides);
  }

  // ----- conservation -----

  /** The left entries a run of rows shows, without their size and date. */
  function LeftStubs(rows: seq<PendingRow>): seq<Entry> {
    if rows == [] then []
    else (if rows[0].left.Some? then [Stub(rows[0].left.value)] else []) + LeftStubs(rows[1..])
  }

  function RightStubs(rows: seq<PendingRow>): seq<Entry> {
    if rows == [] then []
    else (if rows[0].right.Some? then [Stub(rows[0].right.value)] else []) + RightStubs(rows[1..])
  }

  lemma StubsCons(row: PendingRow, rows: seq<PendingRow>)
    ensures LeftStubs([row] + rows) == (if row.left.Some? then [Stub(row.left.value)] else []) + LeftStubs(rows)
    ensures RightStubs([row] + rows) == (if row.right.Some? then [Stub(row.right.value)] else []) + RightStubs(rows)
  {
    assert ([row] + rows)[1..] == rows;
  }

  lemma {:induction false} StubsAppend(a: seq<PendingRow>, b: seq<PendingRow>)
    ensures LeftStubs(a + b) == LeftStubs(a) + LeftStubs(b)
    ensures RightStubs(a + b) == RightStubs(a) + RightStubs(b)
  {
    if a == [] {
      assert a + b == b;
    } else {
      hide LeftStubs, RightStubs, Stub;
      assert a + b == [a[0]] + (a[1..] + b);
      assert a == [a[0]] + a[1..];
      StubsAppend(a[1..], b);
      StubsCons(a[0], a[1..] + b);
      StubsCons(a[0], a[1..]);
    }
  }

  lemma {:induction false} ClashStubs(cs: seq<(Entry, Reason)>)
    ensures LeftStubs(CollisionRows(cs, Left)) == Map(Stub, ClashEntries(cs))
    ensures RightStubs(CollisionRows(cs, Left)) == []
    ensures LeftStubs(CollisionRows(cs, Right)) == []
    ensures RightStubs(CollisionRows(cs, Right)) == Map(Stub, ClashEntries(cs))
  {
    if cs != [] {
      ClashStubs(cs[1..]);
      assert CollisionRows(cs, Left)[1..] == CollisionRows(cs[1..], Left);
      assert CollisionRows(cs, Right)[1..] == CollisionRows(cs[1..], Right);
      assert ClashEntries(cs) == [cs[0].0] + ClashEntries(cs[1..]);
      MapAppend(Stub, [cs[0].0], ClashEntries(cs[1..]));
    }
  }

  /** The entry an item has on the left, if any, and on the right. */
  function LeftEntry(item: MergeItem): seq<Entry> {
    match item
    case LeftOnly(_, e) => [e]
    case RightOnly(_, _) => []
    case Both(_, l, _) => [l]
  }

  function RightEntry(item: MergeItem): seq<Entry> {
    match item
    case LeftOnly(_, _) => []
    case RightOnly(_, e) => [e]
    case Both(_, _, r) => [r]
  }

  lemma SidesHead(items: seq<MergeItem>)
    requires items != []
    ensures Map(Stub, LeftOf(items)) == Map(Stub, LeftEntry(items[0])) + Map(Stub, LeftOf(items[1..]))
    ensures Map(Stub, RightOf(items)) == Map(Stub, RightEntry(items[0])) + Map(Stub, RightOf(items[1..]))
  {
    hide Stub, Map;
    MapAppend(Stub, LeftEntry(items[0]), LeftOf(items[1..]));
    MapAppend(Stub, RightEntry(items[0]), RightOf(items[1..]));
  }

  /** The row of an item shows that item's entries. */
  lemma ItemRowShows(env: Env, c: Collided, item: MergeItem)
    ensures var row := ItemRow(env, c, item);
            && (if row.left.Some? then [Stub(row.left.value)] else []) == Map(Stub, LeftEntry(item))
            && (if row.right.Some? then [Stub(row.right.value)] else []) == Map(Stub, RightEntry(item))
  {
    hide PairRow;
    if item.Both? {
      PairRowKeepsEntries(env, item.l, item.r);
    }
  }

  lemma {:induction false} ItemStubs(env: Env, c: Collided, items: seq<MergeItem>)
    ensures LeftStubs(ItemRows(env, c, items)) == Map(Stub, LeftOf(items))
    ensures RightStubs(ItemRows(env, c, items)) == Map(Stub, RightOf(items))
  {
    hide ItemRow, LeftEntry, RightEntry, Stub;
    if items != [] {
      ItemStubs(env, c, items[1..]);
      hide LeftStubs, RightStubs, LeftOf, RightOf, Map;
      SidesHead(items);
      var rows := ItemRows(env, c, items);
      assert rows == [rows[0]] + ItemRows(env, c, items[1..]);
      StubsCons(rows[0], ItemRows(env, c, items[1..]));
      ItemRowShows(env, c, items[0]);
    }
  }

  /**
    Conservation: the left entries of a directory's rows are, as a multiset, exactly the
    visible left entries (but for the size and date a stat may have filled in), whatever
    the order of the listing; and the same on the right.
   */
  lemma EveryEntryInExactlyOneRow(env: Env, p: Paired)
    ensures multiset(LeftStubs(PairedRows(env, p))) == multiset(Map(Stub, p.lefts))
    ensures multiset(RightStubs(PairedRows(env, p))) == multiset(Map(Stub, p.rights))
  {
    hide Indexed, Unique, Collisions, CollidedAmong, Merge, LeftStubs, RightStubs;
    var lc, rc := Collisions(p.LeftIndex()), Collisions(p.RightIndex());
    var lu, ru := Unique(p.LeftIndex()), Unique(p.RightIndex());
    var rows := ItemRows(env, p.Clashes(), p.Items());
    StubsAppend(ClashRows(p.LeftIndex(), p.RightIndex()), rows);
    StubsAppend(CollisionRows(lc, Left), CollisionRows(rc, Right));
    ClashStubs(lc);
    ClashStubs(rc);
    ItemStubs(env, p.Clashes(), p.Items());
    MergeKeepsBothSides(lu, ru);
    ListingSplits(p.enc, p.lefts, p.sides);
    ListingSplits(p.enc, p.rights, p.sides);
    MapPermutes(Stub, p.lefts, ClashEntries(lc) + SecondsOf(lu));
    MapPermutes(Stub, p.rights, ClashEntries(rc) + SecondsOf(ru));
    MapAppend(Stub, ClashEntries(lc), SecondsOf(lu));
    MapAppend(Stub, ClashEntries(rc), SecondsOf(ru));
  }

  // ----- exact classification -----

  function RowVerdict(row: PendingRow): Verdict {
    match row
    case Judged(d, _, _) => d.verdict
    case Flagged(_, _, v, _, _, _) => v
  }

  /** How many entries of the directory hold key `k`, on the left and on the right. */
  function LeftHolders(p: Paired, k: Bytes): nat {
    Holders(p.enc, p.lefts, p.sides, k)
  }

  function RightHolders(p: Paired, k: Bytes): nat {
    Holders(p.enc, p.rights, p.sides, k)
  }

  /** What a row about key `k` must be, given how often each side holds it. */
  predicate Classified(p: Paired, row: PendingRow, k: Bytes) {
    var l, r := LeftHolders(p, k), RightHolders(p, k);
    && (row.left.Some? && row.right.Some? <==> l == 1 && r == 1)
    && (RowVerdict(row) == OnlyLeft <==> l == 1 && r == 0)
    && (RowVerdict(row) == OnlyRight <==> l == 0 && r == 1)
    && (RowVerdict(row) == Ambiguous <==> l >= 2 || r >= 2)
  }

  /** The row shows an entry of key `k`, and no entry of another key. */
  predicate About(p: Paired, row: PendingRow, k: Bytes) {
    && (row.left.Some? || row.right.Some?)
    && (row.left.Some? ==> KeyOf(p.enc, row.left.value, p.sides) == k)
    && (row.right.Some? ==> KeyOf(p.enc, row.right.value, p.sides) == k)
  }

  lemma PairVerdict(env: Env, l: Entry, r: Entry)
    ensures RowVerdict(PairRow(env, l, r)) !in {OnlyLeft, OnlyRight, Ambiguous}
  {
  }

  lemma ItemClassified(env: Env, p: Paired, item: MergeItem)
    requires item in p.Items()
    ensures About(p, ItemRow(env, p.Clashes(), item), item.key)
    ensures Classified(p, ItemRow(env, p.Clashes(), item), item.key)
  {
    hide Indexed, Unique, Collisions, CollidedAmong, Merge, Holders, PairRow, KeyFor;
    var k, ls, rs := item.key, Unique(p.LeftIndex()), Unique(p.RightIndex());
    UniqueSpec(p.enc, p.lefts, p.sides);
    UniqueSpec(p.enc, p.rights, p.sides);
    MergePlaces(ls, rs, item);
    CollidedKeysSpec(p.enc, p.lefts, p.sides, k);
    CollidedKeysSpec(p.enc, p.rights, p.sides, k);
    HeldOnceIsUnique(p.enc, p.lefts, p.sides, k);
    HeldOnceIsUnique(p.enc, p.rights, p.sides, k);
    if item.Both? {
      PairVerdict(env, item.l, item.r);
      PairRowKeepsEntries(env, item.l, item.r);
    }
  }

  /** A key held exactly once is among the unique keys. */
  lemma HeldOnceIsUnique(enc: Encoding, entries: seq<Entry>, sides: Sides, k: Bytes)
    ensures Holders(enc, entries, sides, k) == 1 ==> k in FirstsOf(Unique(Indexed(enc, entries, sides)))
  {
    hide Indexed, Unique;
    if Holders(enc, entries, sides, k) == 1 {
      var ks := Keys(enc, entries, sides);
      var ps := Positions(ks, k);
      PositionsSpec(ks, k);
      UniqueSpec(enc, entries, sides);
      assert HeldOnce(enc, entries, sides, (k, entries[ps[0]]));
      FirstIn(Unique(Indexed(enc, entries, sides)), (k, entries[ps[0]]));
    }
  }

  lemma ClashClassified(p: Paired, c: (Entry, Reason), side: Side)
    requires side == Left ==> c in Collisions(p.LeftIndex())
    requires side == Right ==> c in Collisions(p.RightIndex())
    requires side != UnknownSide
    ensures var k := KeyOf(p.enc, c.0, p.sides);
            About(p, CollisionRow(c, side), k) && Classified(p, CollisionRow(c, side), k)
  {
    hide Indexed, Collisions, Holders, KeyFor;
    CollisionsSpec(p.enc, p.lefts, p.sides);
    CollisionsSpec(p.enc, p.rights, p.sides);
  }

  /**
    Exact classification: every row of the directory is about one key, and it pairs, is
    `OnlyLeft`, `OnlyRight` or `Ambiguous` exactly as the number of holders of that key on
    each side says.
   */
  lemma EveryRowIsClassified(env: Env, p: Paired, i: nat) returns (k: Bytes)
    requires i < |PairedRows(env, p)|
    ensures About(p, PairedRows(env, p)[i], k) && Classified(p, PairedRows(env, p)[i], k)
  {
    hide Indexed, Unique, Collisions, CollidedAmong, Merge, About, Classified, ItemRow, CollisionRow;
    var lc, rc, items := Collisions(p.LeftIndex()), Collisions(p.RightIndex()), p.Items();
    if i < |lc| {
      assert lc[i] in lc;
      k := KeyOf(p.enc, lc[i].0, p.sides);
      ClashClassified(p, lc[i], Left);
    } else if i < |lc| + |rc| {
      assert rc[i - |lc|] in rc;
      k := KeyOf(p.enc, rc[i - |lc|].0, p.sides);
      ClashClassified(p, rc[i - |lc|], Right);
    } else {
      var item := items[i - |lc| - |rc|];
      assert item in items;
      k := item.key;
      ItemClassified(env, p, item);
    }
  }

  /** Conservation of a visit: both listings come out whole in its rows. */
  lemma VisitConservesEntries(env: Env, f: Frame)
    requires BothListed(env, f)
    ensures multiset(LeftStubs(VisitRows(env, f))) == multiset(Map(Stub, LeftListing(env, f).entries))
    ensures multiset(RightStubs(VisitRows(env, f))) == multiset(Map(Stub, RightListing(env, f).entries))
  {
    hide PairedRows, LeftStubs, RightStubs, ListVisible;
    EveryEntryInExactlyOneRow(env, PairedOf(env, f));
  }

  /** No silent pairing in any directory: a row of two byte-different names names their transform. */
  lemma NoSilentPairingInRows(env: Env, p: Paired, i: nat, id: nat)
    requires p.enc == env.enc && i < |PairedRows(env, p)|
    ensures var row := RowOf(env.enc, PairedRows(env, p)[i], id);
            && (row.left.Some? && row.right.Some? ==>
                  (row.pairedUnder.Some? <==> PairName(row.left.value) != PairName(row.right.value)))
            && (row.pairedUnder.Some? ==> row.left.Some? && row.right.Some?)
  {
    hide PairedRows, PairTransformOf;
    var k := EveryRowIsClassified(env, p, i);
    var row := PairedRows(env, p)[i];
    if row.left.Some? && row.right.Some? {
      NoSilentPairing(env.enc, PairName(row.left.value), PairName(row.right.value));
      assert Pairs(env.enc, PairName(row.left.value), PairName(row.right.value), p.sides);
    }
  }
}
