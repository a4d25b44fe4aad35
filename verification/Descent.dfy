/**
  Where a visit descends and in which order: exactly into the pairs of directories (and the
  orphans of the named side) that their keys, kinds and the depth limit allow, in key order.
 */
module Descent {
  import opened Proto
  import opened ByteOrder
  import opened Key
  import opened Pair
  import opened Listing
  import opened Visit
  import opened Bounds
  import opened Classification

  // ----- the merge-join ascends -----

  function ItemKeys(items: seq<MergeItem>): (ks: seq<Bytes>)
    ensures |ks| == |items|
    ensures forall i :: 0 <= i < |items| ==> ks[i] == items[i].key
  {
    seq(|items|, i requires 0 <= i < |items| => items[i].key)
  }

  lemma ItemKeyIsHeld(ls: seq<(Bytes, Entry)>, rs: seq<(Bytes, Entry)>, item: MergeItem)
    requires Placed(ls, rs, item)
    ensures item.key in FirstsOf(ls) + FirstsOf(rs)
  {
    match item
    case LeftOnly(k, e) => FirstIn(ls, (k, e));
    case RightOnly(k, e) => FirstIn(rs, (k, e));
    case Both(k, l, r) => FirstIn(ls, (k, l));
  }

  lemma AboveHead(us: seq<(Bytes, Entry)>, k: Bytes)
    requires Ascending(FirstsOf(us))
    requires us == [] || k == us[0].0 || Less(k, us[0].0)
    ensures forall i :: 1 <= i < |us| ==> Less(k, FirstsOf(us)[i])
  {
    var ks := FirstsOf(us);
    forall i | 1 <= i < |us|
      ensures Less(k, ks[i])
    {
      if k != ks[0] {
        LessTransitive(k, ks[0], ks[i]);
      }
    }
  }

  /** A key below both lists comes first, and the rest still ascends. */
  lemma HeadBelowRest(k: Bytes, item: MergeItem, ls: seq<(Bytes, Entry)>, rs: seq<(Bytes, Entry)>)
    requires Ascending(FirstsOf(ls)) && Ascending(FirstsOf(rs)) && item.key == k
    requires forall i :: 0 <= i < |ls| ==> Less(k, FirstsOf(ls)[i])
    requires forall i :: 0 <= i < |rs| ==> Less(k, FirstsOf(rs)[i])
    requires Ascending(ItemKeys(Merge(ls, rs)))
    ensures Ascending(ItemKeys([item] + Merge(ls, rs)))
  {
    hide Merge, Less;
    var rest, bound := ItemKeys(Merge(ls, rs)), FirstsOf(ls) + FirstsOf(rs);
    forall x | x in rest
      ensures x in bound
    {
      var i :| 0 <= i < |rest| && rest[i] == x;
      MergePlaces(ls, rs, Merge(ls, rs)[i]);
      ItemKeyIsHeld(ls, rs, Merge(ls, rs)[i]);
    }
    AscendingCons(k, rest, bound);
    assert ItemKeys([item] + Merge(ls, rs)) == [k] + rest;
  }

  /** Rows and frames come in strictly ascending key order. */
  lemma {:induction false} MergeAscends(ls: seq<(Bytes, Entry)>, rs: seq<(Bytes, Entry)>)
    requires Ascending(FirstsOf(ls)) && Ascending(FirstsOf(rs))
    ensures Ascending(ItemKeys(Merge(ls, rs)))
    decreases |ls| + |rs|
  {
    if ls == [] && rs == [] {
      return;
    }
    if ls != [] { AscendingHead(ls); }
    if rs != [] { AscendingHead(rs); }
    if rs == [] || (ls != [] && Less(ls[0].0, rs[0].0)) {
      MergeAscends(ls[1..], rs);
      AboveHead(ls, ls[0].0);
      AboveHead(rs, ls[0].0);
      HeadBelowRest(ls[0].0, LeftOnly(ls[0].0, ls[0].1), ls[1..], rs);
    } else if ls == [] || Less(rs[0].0, ls[0].0) {
      MergeAscends(ls, rs[1..]);
      AboveHead(ls, rs[0].0);
      AboveHead(rs, rs[0].0);
      HeadBelowRest(rs[0].0, RightOnly(rs[0].0, rs[0].1), ls, rs[1..]);
    } else {
      LessTotal(ls[0].0, rs[0].0);
      MergeAscends(ls[1..], rs[1..]);
      AboveHead(ls, ls[0].0);
      AboveHead(rs, ls[0].0);
      HeadBelowRest(ls[0].0, Both(ls[0].0, ls[0].1, rs[0].1), ls[1..], rs[1..]);
    }
  }

  lemma ItemsAscend(p: Paired)
    ensures Ascending(ItemKeys(p.Items()))
  {
    hide Indexed, Unique, Merge, Holders;
    UniqueSpec(p.enc, p.lefts, p.sides);
    UniqueSpec(p.enc, p.rights, p.sides);
    MergeAscends(Unique(p.LeftIndex()), Unique(p.RightIndex()));
  }

  // ----- the items of a directory, exactly -----

  /** The item is what the two listings say of its key. */
  predicate Belongs(p: Paired, item: MergeItem) {
    match item
    case LeftOnly(k, e) => HeldOnce(p.enc, p.lefts, p.sides, (k, e)) && RightHolders(p, k) != 1
    case RightOnly(k, e) => HeldOnce(p.enc, p.rights, p.sides, (k, e)) && LeftHolders(p, k) != 1
    case Both(k, l, r) =>
      HeldOnce(p.enc, p.lefts, p.sides, (k, l)) && HeldOnce(p.enc, p.rights, p.sides, (k, r))
  }

  lemma {:induction false} LeftMember(items: seq<MergeItem>, e: Entry) returns (item: MergeItem)
    requires e in LeftOf(items)
    ensures item in items && !item.RightOnly? && e == if item.Both? then item.l else item.e
  {
    if !items[0].RightOnly? && e == (if items[0].Both? then items[0].l else items[0].e) {
      item := items[0];
    } else {
      item := LeftMember(items[1..], e);
    }
  }

  lemma {:induction false} RightMember(items: seq<MergeItem>, e: Entry) returns (item: MergeItem)
    requires e in RightOf(items)
    ensures item in items && !item.LeftOnly? && e == if item.Both? then item.r else item.e
  {
    if !items[0].LeftOnly? && e == (if items[0].Both? then items[0].r else items[0].e) {
      item := items[0];
    } else {
      item := RightMember(items[1..], e);
    }
  }

  lemma SecondIn(us: seq<(Bytes, Entry)>, u: (Bytes, Entry))
    requires u in us
    ensures u.1 in SecondsOf(us)
  {
    var i :| 0 <= i < |us| && us[i] == u;
    assert SecondsOf(us)[i] == u.1;
  }

  /** One key is held once by one entry only. */
  lemma OneHolder(enc: Encoding, entries: seq<Entry>, sides: Sides, k: Bytes, a: Entry, b: Entry)
    requires HeldOnce(enc, entries, sides, (k, a)) && HeldOnce(enc, entries, sides, (k, b))
    ensures a == b
  {
    hide Indexed, Get, Holders;
    GetSpec(enc, entries, sides, k, a);
    GetSpec(enc, entries, sides, k, b);
  }

  lemma ItemBelongs(p: Paired, item: MergeItem)
    requires item in p.Items()
    ensures Belongs(p, item)
  {
    hide Indexed, Unique, Merge, Holders;
    UniqueSpec(p.enc, p.lefts, p.sides);
    UniqueSpec(p.enc, p.rights, p.sides);
    MergePlaces(Unique(p.LeftIndex()), Unique(p.RightIndex()), item);
    HeldOnceIsUnique(p.enc, p.lefts, p.sides, item.key);
    HeldOnceIsUnique(p.enc, p.rights, p.sides, item.key);
  }

  /** The merge-join's items are exactly what the two listings say, key by key. */
  lemma ItemsAreExact(p: Paired, item: MergeItem)
    ensures item in p.Items() <==> Belongs(p, item)
  {
    hide Indexed, Unique, Merge, Holders, LeftOf, RightOf;
    var ls, rs := Unique(p.LeftIndex()), Unique(p.RightIndex());
    UniqueSpec(p.enc, p.lefts, p.sides);
    UniqueSpec(p.enc, p.rights, p.sides);
    MergeKeepsBothSides(ls, rs);
    if item in p.Items() {
      ItemBelongs(p, item);
    } else if Belongs(p, item) {
      var k := item.key;
      var found: MergeItem;
      if item.RightOnly? {
        SecondIn(rs, (k, item.e));
        found := RightMember(p.Items(), item.e);
      } else {
        var e := if item.Both? then item.l else item.e;
        SecondIn(ls, (k, e));
        found := LeftMember(p.Items(), e);
      }
      ItemBelongs(p, found);
      if item.Both? {
        OneHolder(p.enc, p.rights, p.sides, k, item.r, found.r);
      }
    }
  }

  // ----- the frames of a visit, exactly -----

  lemma {:induction false} ItemHasFrames(opts: CompareOptions, c: Collided, depth: U32, items: seq<MergeItem>,
                                         item: MergeItem, g: Frame)
    requires item in items && g in ItemFrames(opts, c, depth, item)
    ensures g in AllFrames(opts, c, depth, items)
  {
    if item != items[0] {
      ItemHasFrames(opts, c, depth, items[1..], item, g);
    }
  }

  /** One key makes this frame: a pair of directories, or a directory only the named side has. */
  predicate DescendedAt(env: Env, p: Paired, depth: U32, g: Frame, k: Bytes) {
    && (env.opts.maxDepth.None? || env.opts.maxDepth.value == U32_MAX || depth + 1 <= env.opts.maxDepth.value)
    && g.depth == (if depth == U32_MAX then depth else depth + 1)
    && (g.left.Some? || g.right.Some?)
    && (g.left.Some? ==> g.left.value.kind == Dir && HeldOnce(p.enc, p.lefts, p.sides, (k, g.left.value)))
    && (g.right.Some? ==> g.right.value.kind == Dir && HeldOnce(p.enc, p.rights, p.sides, (k, g.right.value)))
    && (g.left.None? ==> env.opts.descendOrphans == Some(Right) && LeftHolders(p, k) == 0)
    && (g.right.None? ==> env.opts.descendOrphans == Some(Left) && RightHolders(p, k) == 0)
  }

  ghost predicate Descended(env: Env, p: Paired, depth: U32, g: Frame) {
    exists k :: DescendedAt(env, p, depth, g, k)
  }

  lemma FrameOfItem(env: Env, p: Paired, depth: U32, item: MergeItem, g: Frame)
    requires Belongs(p, item) && g in ItemFrames(env.opts, p.Clashes(), depth, item)
    ensures DescendedAt(env, p, depth, g, item.key)
  {
    hide Indexed, Collisions, CollidedAmong, Holders, HeldOnce;
    CollidedKeysSpec(p.enc, p.lefts, p.sides, item.key);
    CollidedKeysSpec(p.enc, p.rights, p.sides, item.key);
  }

  function ItemFor(g: Frame, k: Bytes): MergeItem
    requires g.left.Some? || g.right.Some?
  {
    if g.left.None? then RightOnly(k, g.right.value)
    else if g.right.None? then LeftOnly(k, g.left.value)
    else Both(k, g.left.value, g.right.value)
  }

  lemma ItemOfFrame(env: Env, p: Paired, depth: U32, g: Frame, k: Bytes)
    requires DescendedAt(env, p, depth, g, k)
    ensures Belongs(p, ItemFor(g, k)) && g in ItemFrames(env.opts, p.Clashes(), depth, ItemFor(g, k))
  {
    hide Indexed, Collisions, CollidedAmong, Holders, HeldOnce;
    CollidedKeysSpec(p.enc, p.lefts, p.sides, k);
    CollidedKeysSpec(p.enc, p.rights, p.sides, k);
  }

  /**
    Exactly where a visit descends: into two directories whose key each side holds once, and
    into a directory of the named side whose key the other side does not hold, each within the
    depth limit; nowhere if a listing failed.
   */
  lemma DescendsExactly(env: Env, f: Frame, g: Frame)
    ensures g in VisitFrames(env, f) <==> BothListed(env, f) && Descended(env, PairedOf(env, f), f.depth, g)
  {
    hide ListVisible, SidesFor, Indexed, Collisions, CollidedAmong, Unique, Merge, Belongs, DescendedAt, ItemFrames, AllFrames;
    if BothListed(env, f) {
      var p := PairedOf(env, f);
      if g in VisitFrames(env, f) {
        var item := FrameHasItem(env.opts, p.Clashes(), f.depth, p.Items(), g);
        ItemsAreExact(p, item);
        FrameOfItem(env, p, f.depth, item, g);
      }
      if Descended(env, p, f.depth, g) {
        var k :| DescendedAt(env, p, f.depth, g, k);
        HasASide(env, p, f.depth, g, k);
        ItemOfFrame(env, p, f.depth, g, k);
        ItemsAreExact(p, ItemFor(g, k));
        ItemHasFrames(env.opts, p.Clashes(), f.depth, p.Items(), ItemFor(g, k), g);
      }
    }
  }

  lemma HasASide(env: Env, p: Paired, depth: U32, g: Frame, k: Bytes)
    requires DescendedAt(env, p, depth, g, k)
    ensures g.left.Some? || g.right.Some?
  {
  }
}
