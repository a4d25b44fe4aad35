/**
  The order in which a provider lists a directory cannot matter: not to what pairs, not to
  what collides and why, not to where the walk descends. Only the reason shown on the
  counterpart of a collision is taken from the first of its colliding entries.
 */
module ListingOrder {
  import opened Proto
  import opened ByteOrder
  import opened Key
  import opened Pair
  import opened Visit
  import opened Traversal
  import opened Multisets

  // ----- what pairs -----

  lemma {:induction false} HoldersIsCount(ks: seq<Bytes>, k: Bytes)
    ensures |Positions(ks, k)| == multiset(ks)[k]
  {
    if ks != [] {
      var n := |ks| - 1;
      HoldersIsCount(ks[..n], k);
      assert ks == ks[..n] + [ks[n]];
      Snoc(ks[..n], ks[n]);
    }
  }

  lemma HoldersPermute(enc: Encoding, a: seq<Entry>, b: seq<Entry>, sides: Sides, k: Bytes)
    requires multiset(a) == multiset(b)
    ensures Holders(enc, a, sides, k) == Holders(enc, b, sides, k)
  {
    var key := e => KeyOf(enc, e, sides);
    MapPermutes(key, a, b);
    assert Keys(enc, a, sides) == Map(key, a);
    assert Keys(enc, b, sides) == Map(key, b);
    HoldersIsCount(Keys(enc, a, sides), k);
    HoldersIsCount(Keys(enc, b, sides), k);
  }

  lemma TailMember(us: seq<(Bytes, Entry)>, vs: seq<(Bytes, Entry)>, u: (Bytes, Entry))
    requires us != [] && vs != [] && us[0] == vs[0]
    requires Ascending(FirstsOf(us))
    requires u in us[1..] && u in vs
    ensures u in vs[1..]
  {
    hide Ascending, Less, FirstsOf;
    AscendingHead(us);
    FirstIn(us[1..], u);
    InTail(vs, u);
  }

  lemma {:induction false} AscendingListsAgree(us: seq<(Bytes, Entry)>, vs: seq<(Bytes, Entry)>)
    requires Ascending(FirstsOf(us)) && Ascending(FirstsOf(vs))
    requires forall u :: u in us <==> u in vs
    ensures us == vs
  {
    hide Ascending, Less, FirstsOf;
    HasMember(us);
    HasMember(vs);
    if us != [] && vs != [] {
      HeadsAgree(us, vs);
      AscendingHead(us);
      AscendingHead(vs);
      forall u
        ensures u in us[1..] <==> u in vs[1..]
      {
        if u in us[1..] {
          assert u in us;
          TailMember(us, vs, u);
        }
        if u in vs[1..] {
          assert u in vs;
          TailMember(vs, us, u);
        }
      }
      AscendingListsAgree(us[1..], vs[1..]);
    }
  }

  lemma HeadsAgree(us: seq<(Bytes, Entry)>, vs: seq<(Bytes, Entry)>)
    requires us != [] && vs != []
    requires Ascending(FirstsOf(us)) && Ascending(FirstsOf(vs))
    requires us[0] in vs && vs[0] in us
    ensures us[0] == vs[0]
  {
    hide Less;
    var i :| 0 <= i < |us| && us[i] == vs[0];
    var j :| 0 <= j < |vs| && vs[j] == us[0];
    if i > 0 && j > 0 {
      assert Less(FirstsOf(us)[0], FirstsOf(us)[i]);
      assert Less(FirstsOf(vs)[0], FirstsOf(vs)[j]);
      LessAsymmetric(us[0].0, vs[0].0);
    }
  }

  lemma UniquePermutes(enc: Encoding, a: seq<Entry>, b: seq<Entry>, sides: Sides)
    requires multiset(a) == multiset(b)
    ensures Unique(Indexed(enc, a, sides)) == Unique(Indexed(enc, b, sides))
  {
    hide Indexed, Unique, Holders;
    UniqueSpec(enc, a, sides);
    UniqueSpec(enc, b, sides);
    var us, vs := Unique(Indexed(enc, a, sides)), Unique(Indexed(enc, b, sides));
    forall u
      ensures u in us <==> u in vs
    {
      HoldersPermute(enc, a, b, sides, u.0);
      assert u.1 in a <==> u.1 in multiset(a);
      assert u.1 in b <==> u.1 in multiset(b);
    }
    AscendingListsAgree(us, vs);
  }

  lemma {:induction false} FramesNeedOnlyKeys(opts: CompareOptions, c: Collided, d: Collided, depth: U32, items: seq<MergeItem>)
    requires c.left.Keys == d.left.Keys && c.right.Keys == d.right.Keys
    ensures AllFrames(opts, c, depth, items) == AllFrames(opts, d, depth, items)
  {
    if items != [] {
      FramesNeedOnlyKeys(opts, c, d, depth, items[1..]);
    }
  }

  lemma ClashesPermute(p: Paired, q: Paired)
    requires p.enc == q.enc && p.sides == q.sides
    requires multiset(p.lefts) == multiset(q.lefts) && multiset(p.rights) == multiset(q.rights)
    ensures p.Clashes().left.Keys == q.Clashes().left.Keys
    ensures p.Clashes().right.Keys == q.Clashes().right.Keys
  {
    hide Indexed, Collisions, CollidedAmong, Holders;
    forall k
      ensures k in p.Clashes().left <==> k in q.Clashes().left
      ensures k in p.Clashes().right <==> k in q.Clashes().right
    {
      CollidedKeysSpec(p.enc, p.lefts, p.sides, k);
      CollidedKeysSpec(p.enc, p.rights, p.sides, k);
      CollidedKeysSpec(q.enc, q.lefts, q.sides, k);
      CollidedKeysSpec(q.enc, q.rights, q.sides, k);
      HoldersPermute(p.enc, p.lefts, q.lefts, p.sides, k);
      HoldersPermute(p.enc, p.rights, q.rights, p.sides, k);
    }
  }

  // ----- what collides, and why -----

  lemma RepeatsIffTwice<A>(s: seq<A>, i: nat)
    requires i < |s|
    ensures (exists j :: 0 <= j < |s| && j != i && s[j] == s[i]) <==> multiset(s)[s[i]] >= 2
  {
    var rest := s[..i] + s[i + 1..];
    SplitAt(s, i);
    if j :| 0 <= j < |s| && j != i && s[j] == s[i] {
      assert rest[if j < i then j else j - 1] == s[i];
      assert s[i] in multiset(rest);
    }
    if multiset(s)[s[i]] >= 2 {
      assert s[i] in multiset(rest);
      var m :| 0 <= m < |rest| && rest[m] == s[i];
      assert s[if m < i then m else m + 1] == s[i];
    }
  }

  /** Each entry's key with its unfolded key. */
  function KeyPairs(enc: Encoding, entries: seq<Entry>, sides: Sides): (ps: seq<(Bytes, Bytes)>)
    ensures |ps| == |entries|
    ensures forall i :: 0 <= i < |ps| ==>
              ps[i] == (KeyOf(enc, entries[i], sides), KeyOf(enc, entries[i], BOTH_CASE_SENSITIVE))
  {
    seq(|entries|, i requires 0 <= i < |entries| =>
          (KeyOf(enc, entries[i], sides), KeyOf(enc, entries[i], BOTH_CASE_SENSITIVE)))
  }

  /** Why an entry collides, by counting: no position is mentioned. */
  function ReasonByCount(keys: multiset<Bytes>, pairs: multiset<(Bytes, Bytes)>, k: Bytes, raw: Bytes): Option<Reason> {
    if keys[k] < 2 then None
    else if pairs[(k, raw)] >= 2 then Some(Normalization)
    else Some(CaseFold)
  }

  function ReasonFor(enc: Encoding, entries: seq<Entry>, sides: Sides, e: Entry): Option<Reason> {
    ReasonByCount(multiset(Keys(enc, entries, sides)), multiset(KeyPairs(enc, entries, sides)),
                  KeyOf(enc, e, sides), KeyOf(enc, e, BOTH_CASE_SENSITIVE))
  }

  /** An entry's reason depends only on how often its key, folded and unfolded, occurs. */
  lemma ReasonsByCount(enc: Encoding, entries: seq<Entry>, sides: Sides, i: nat)
    requires i < |entries|
    ensures Reasons(enc, entries, sides)[i] == ReasonFor(enc, entries, sides, entries[i])
  {
    hide KeyOf;
    var ks, raw := Keys(enc, entries, sides), Keys(enc, entries, BOTH_CASE_SENSITIVE);
    var ps := KeyPairs(enc, entries, sides);
    RepeatsIffTwice(ks, i);
    RepeatsIffTwice(ps, i);
    if j :| 0 <= j < |ps| && j != i && ps[j] == ps[i] {
      assert ks[j] == ks[i] && raw[j] == raw[i];
      assert HasTwin(ks, raw, i);
    }
    if HasTwin(ks, raw, i) {
      var j :| 0 <= j < |ks| && j != i && ks[j] == ks[i] && raw[j] == raw[i];
      assert ps[j] == ps[i];
    }
  }

  lemma ReasonForPermutes(enc: Encoding, a: seq<Entry>, b: seq<Entry>, sides: Sides, e: Entry)
    requires multiset(a) == multiset(b)
    ensures ReasonFor(enc, a, sides, e) == ReasonFor(enc, b, sides, e)
  {
    hide KeyOf;
    var key, pair := x => KeyOf(enc, x, sides), x => (KeyOf(enc, x, sides), KeyOf(enc, x, BOTH_CASE_SENSITIVE));
    MapPermutes(key, a, b);
    MapPermutes(pair, a, b);
    assert Keys(enc, a, sides) == Map(key, a) && Keys(enc, b, sides) == Map(key, b);
    assert KeyPairs(enc, a, sides) == Map(pair, a) && KeyPairs(enc, b, sides) == Map(pair, b);
  }

  /** The entries of a listing that have a reason, with it. */
  function Clashing(reasonOf: Entry -> Option<Reason>, entries: seq<Entry>): seq<(Entry, Reason)> {
    if entries == [] then []
    else
      var n := |entries| - 1;
      Clashing(reasonOf, entries[..n]) +
      (if reasonOf(entries[n]).Some? then [(entries[n], reasonOf(entries[n]).value)] else [])
  }

  lemma {:induction false} CollisionsAreClashing(idx: SideIndex, reasonOf: Entry -> Option<Reason>, n: nat)
    requires idx.Valid() && n <= |idx.entries|
    requires forall i :: 0 <= i < |idx.entries| ==> idx.reasons[i] == reasonOf(idx.entries[i])
    ensures CollisionsUpTo(idx, n) == Clashing(reasonOf, idx.entries[..n])
  {
    if n > 0 {
      CollisionsAreClashing(idx, reasonOf, n - 1);
      assert idx.entries[..n][..n - 1] == idx.entries[..n - 1];
    }
  }

  lemma {:induction false} ClashingCount(reasonOf: Entry -> Option<Reason>, entries: seq<Entry>, c: (Entry, Reason))
    ensures multiset(Clashing(reasonOf, entries))[c] ==
            if reasonOf(c.0) == Some(c.1) then multiset(entries)[c.0] else 0
  {
    if entries != [] {
      var n := |entries| - 1;
      ClashingCount(reasonOf, entries[..n], c);
      assert entries == entries[..n] + [entries[n]];
      Snoc(entries[..n], entries[n]);
    }
  }

  lemma CollisionsByCount(enc: Encoding, entries: seq<Entry>, sides: Sides, c: (Entry, Reason))
    ensures multiset(Collisions(Indexed(enc, entries, sides)))[c] ==
            if ReasonFor(enc, entries, sides, c.0) == Some(c.1) then multiset(entries)[c.0] else 0
  {
    hide ReasonFor, CollisionsUpTo;
    var idx := Indexed(enc, entries, sides);
    var reasonOf := e => ReasonFor(enc, entries, sides, e);
    forall i | 0 <= i < |entries|
      ensures idx.reasons[i] == reasonOf(entries[i])
    {
      ReasonsByCount(enc, entries, sides, i);
    }
    CollisionsAreClashing(idx, reasonOf, |entries|);
    assert entries[..|entries|] == entries;
    ClashingCount(reasonOf, entries, c);
  }

  /** Permuting a listing permutes its collisions, reasons included. */
  lemma CollisionsPermute(enc: Encoding, a: seq<Entry>, b: seq<Entry>, sides: Sides)
    requires multiset(a) == multiset(b)
    ensures multiset(Collisions(Indexed(enc, a, sides))) == multiset(Collisions(Indexed(enc, b, sides)))
  {
    hide Indexed, Collisions, ReasonFor;
    forall c
      ensures multiset(Collisions(Indexed(enc, a, sides)))[c] == multiset(Collisions(Indexed(enc, b, sides)))[c]
    {
      CollisionsByCount(enc, a, sides, c);
      CollisionsByCount(enc, b, sides, c);
      ReasonForPermutes(enc, a, b, sides, c.0);
    }
  }

  // ----- the rows of the directory -----

  /** An ambiguous row whose entry does not collide itself: the other side's key does. */
  predicate Counterpart(row: PendingRow) {
    && row.Flagged? && row.verdict == Ambiguous
    && ((row.left.Some? && row.side == Right) || (row.right.Some? && row.side == Left))
  }

  /** The row without the reason borrowed from the other side's first colliding entry. */
  function WithoutBorrowedReason(row: PendingRow): PendingRow {
    if Counterpart(row) then row.(reason := UnknownReason) else row
  }

  lemma ItemRowPermutes(env: Env, c: Collided, d: Collided, item: MergeItem)
    requires c.left.Keys == d.left.Keys && c.right.Keys == d.right.Keys
    ensures WithoutBorrowedReason(ItemRow(env, c, item)) == WithoutBorrowedReason(ItemRow(env, d, item))
    ensures item.Both? ==> ItemRow(env, c, item) == ItemRow(env, d, item)
  {
    hide PairRow;
  }

  lemma CollisionRowsPermute(cs: seq<(Entry, Reason)>, ds: seq<(Entry, Reason)>, side: Side)
    requires multiset(cs) == multiset(ds)
    ensures multiset(CollisionRows(cs, side)) == multiset(CollisionRows(ds, side))
  {
    hide CollisionRow;
    var row := c => CollisionRow(c, side);
    MapPermutes(row, cs, ds);
    assert CollisionRows(cs, side) == Map(row, cs) && CollisionRows(ds, side) == Map(row, ds);
  }

  lemma ClashRowsPermute(p: Paired, q: Paired)
    requires p.enc == q.enc && p.sides == q.sides
    requires multiset(p.lefts) == multiset(q.lefts) && multiset(p.rights) == multiset(q.rights)
    ensures multiset(ClashRows(p.LeftIndex(), p.RightIndex())) == multiset(ClashRows(q.LeftIndex(), q.RightIndex()))
  {
    hide Indexed, Collisions, CollisionRows;
    CollisionsPermute(p.enc, p.lefts, q.lefts, p.sides);
    CollisionsPermute(p.enc, p.rights, q.rights, p.sides);
    CollisionRowsPermute(Collisions(p.LeftIndex()), Collisions(q.LeftIndex()), Left);
    CollisionRowsPermute(Collisions(p.RightIndex()), Collisions(q.RightIndex()), Right);
  }

  /**
    Listing order is invisible: permuting either listing permutes the collisions with their
    reasons, changes neither the merge-join's items nor the frames descended into, and
    permutes the directory's rows but for the reason on the counterpart of a collision.
   */
  lemma ListingOrderIsInvisible(env: Env, p: Paired, q: Paired, depth: U32)
    requires p.enc == q.enc && p.sides == q.sides
    requires multiset(p.lefts) == multiset(q.lefts) && multiset(p.rights) == multiset(q.rights)
    ensures p.Items() == q.Items()
    ensures PairedFrames(env, p, depth) == PairedFrames(env, q, depth)
    ensures multiset(Collisions(p.LeftIndex())) == multiset(Collisions(q.LeftIndex()))
    ensures multiset(Collisions(p.RightIndex())) == multiset(Collisions(q.RightIndex()))
    ensures multiset(Map(WithoutBorrowedReason, PairedRows(env, p)))
         == multiset(Map(WithoutBorrowedReason, PairedRows(env, q)))
    ensures forall item :: var a, b := ItemRow(env, p.Clashes(), item), ItemRow(env, q.Clashes(), item);
              a == b || (a.Flagged? && b.Flagged? && a.(reason := b.reason) == b)
  {
    hide Indexed, Unique, Collisions, CollidedAmong, Merge, AllFrames, PairRow, ClashRows;
    UniquePermutes(p.enc, p.lefts, q.lefts, p.sides);
    UniquePermutes(p.enc, p.rights, q.rights, p.sides);
    CollisionsPermute(p.enc, p.lefts, q.lefts, p.sides);
    CollisionsPermute(p.enc, p.rights, q.rights, p.sides);
    ClashesPermute(p, q);
    FramesNeedOnlyKeys(env.opts, p.Clashes(), q.Clashes(), depth, p.Items());
    RowsPermute(env, p, q);
  }

  lemma RowsPermute(env: Env, p: Paired, q: Paired)
    requires p.enc == q.enc && p.sides == q.sides && p.Items() == q.Items()
    requires multiset(p.lefts) == multiset(q.lefts) && multiset(p.rights) == multiset(q.rights)
    ensures multiset(Map(WithoutBorrowedReason, PairedRows(env, p)))
         == multiset(Map(WithoutBorrowedReason, PairedRows(env, q)))
  {
    hide Indexed, Unique, Collisions, CollidedAmong, Merge, ItemRow, ClashRows, WithoutBorrowedReason;
    var a, b := ClashRows(p.LeftIndex(), p.RightIndex()), ClashRows(q.LeftIndex(), q.RightIndex());
    var c, d := ItemRows(env, p.Clashes(), p.Items()), ItemRows(env, q.Clashes(), q.Items());
    ClashRowsPermute(p, q);
    ClashesPermute(p, q);
    MapPermutes(WithoutBorrowedReason, a, b);
    forall i | 0 <= i < |c|
      ensures WithoutBorrowedReason(c[i]) == WithoutBorrowedReason(d[i])
    {
      ItemRowPermutes(env, p.Clashes(), q.Clashes(), p.Items()[i]);
    }
    assert Map(WithoutBorrowedReason, c) == Map(WithoutBorrowedReason, d);
    MapAppend(WithoutBorrowedReason, a, c);
    MapAppend(WithoutBorrowedReason, b, d);
  }
}
