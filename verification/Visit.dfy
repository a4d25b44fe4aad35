/**
  What visiting one pair of directories means, as functions of the two listings: its rows and
  the frames it descends into, both in order. `Walk` is proved against these.
 */
module Visit {
  import opened Proto
  import opened ByteOrder
  import opened Cascade
  import opened Pair
  import opened Listing
  import opened Key

  /** One unit of work of the walk: a visit lists both directories, or the one there is. */
  datatype Frame = Frame(left: Option<Entry>, right: Option<Entry>, depth: U32)

  // ----- the merge-join -----

  datatype MergeItem =
    | LeftOnly(key: Bytes, e: Entry)
    | RightOnly(key: Bytes, e: Entry)
    | Both(key: Bytes, l: Entry, r: Entry)

  function Merge(ls: seq<(Bytes, Entry)>, rs: seq<(Bytes, Entry)>): seq<MergeItem>
    decreases |ls| + |rs|
  {
    if ls == [] && rs == [] then []
    else if rs == [] || (ls != [] && Less(ls[0].0, rs[0].0)) then
      [LeftOnly(ls[0].0, ls[0].1)] + Merge(ls[1..], rs)
    else if ls == [] || Less(rs[0].0, ls[0].0) then
      [RightOnly(rs[0].0, rs[0].1)] + Merge(ls, rs[1..])
    else
      [Both(ls[0].0, ls[0].1, rs[0].1)] + Merge(ls[1..], rs[1..])
  }

  // ----- rows and frames of one item -----

  /** An entry of one side only; ambiguous if the other side holds its key twice or more. */
  function SideRow(left: Option<Entry>, right: Option<Entry>, collided: Option<Reason>, side: Side): PendingRow {
    match collided
    case Some(reason) => Flagged(left, right, Ambiguous, Presence, reason, side)
    case None => Judged(if left.Some? then ONLY_LEFT else ONLY_RIGHT, left, right)
  }

  function Lookup(m: map<Bytes, Reason>, k: Bytes): Option<Reason> {
    if k in m then Some(m[k]) else None
  }

  predicate DescendsBelow(opts: CompareOptions, depth: U32) {
    opts.maxDepth.None? || SaturatingSucc(depth) <= opts.maxDepth.value
  }

  predicate DescendsIntoOrphan(opts: CompareOptions, e: Entry, side: Side, depth: U32) {
    e.kind == Dir && opts.descendOrphans == Some(side) && DescendsBelow(opts, depth)
  }

  function OrphanFrames(opts: CompareOptions, e: Entry, side: Side, depth: U32): seq<Frame> {
    if !DescendsIntoOrphan(opts, e, side, depth) then []
    else
      match side
      case Left => [Frame(Some(e), None, SaturatingSucc(depth))]
      case Right => [Frame(None, Some(e), SaturatingSucc(depth))]
      case UnknownSide => []
  }

  /** The collided keys of the two sides. */
  datatype Collided = Collided(left: map<Bytes, Reason>, right: map<Bytes, Reason>)

  function ItemRow(env: Env, c: Collided, item: MergeItem): PendingRow {
    match item
    case LeftOnly(k, e) => SideRow(Some(e), None, Lookup(c.right, k), Right)
    case RightOnly(k, e) => SideRow(None, Some(e), Lookup(c.left, k), Left)
    case Both(_, l, r) => PairRow(env, l, r)
  }

  function ItemFrames(opts: CompareOptions, c: Collided, depth: U32, item: MergeItem): seq<Frame> {
    match item
    case LeftOnly(k, e) => if k in c.right then [] else OrphanFrames(opts, e, Left, depth)
    case RightOnly(k, e) => if k in c.left then [] else OrphanFrames(opts, e, Right, depth)
    case Both(_, l, r) =>
      if l.kind == Dir && r.kind == Dir && DescendsBelow(opts, depth)
      then [Frame(Some(l), Some(r), SaturatingSucc(depth))] else []
  }

  function ItemRows(env: Env, c: Collided, items: seq<MergeItem>): (rows: seq<PendingRow>)
    ensures |rows| == |items|
    ensures forall i :: 0 <= i < |items| ==> rows[i] == ItemRow(env, c, items[i])
  {
    seq(|items|, i requires 0 <= i < |items| => ItemRow(env, c, items[i]))
  }

  function AllFrames(opts: CompareOptions, c: Collided, depth: U32, items: seq<MergeItem>): seq<Frame> {
    if items == [] then []
    else ItemFrames(opts, c, depth, items[0]) + AllFrames(opts, c, depth, items[1..])
  }

  /** As many rows as collisions, in their order. */
  function CollisionRows(cs: seq<(Entry, Reason)>, side: Side): (rows: seq<PendingRow>)
    ensures |rows| == |cs|
    ensures forall i :: 0 <= i < |cs| ==> rows[i] == CollisionRow(cs[i], side)
  {
    seq(|cs|, i requires 0 <= i < |cs| => CollisionRow(cs[i], side))
  }

  function CollisionRow(c: (Entry, Reason), side: Side): PendingRow {
    Flagged(if side == Left then Some(c.0) else None, if side == Left then None else Some(c.0),
            Ambiguous, Presence, c.1, side)
  }

  // ----- one directory -----

  function SidesFor(env: Env, f: Frame): Sides {
    var l := if f.left.Some? then env.left.capabilitiesAt(f.left.value.path) else None;
    var r := if f.right.Some? then env.right.capabilitiesAt(f.right.value.path) else None;
    if l.Some? && r.Some? then SidesFromCapabilities(l.value, r.value) else env.sides
  }

  /** The two listings of a frame once both succeeded, and how they pair. */
  datatype Paired = Paired(enc: Encoding, sides: Sides, lefts: seq<Entry>, rights: seq<Entry>) {
    function LeftIndex(): (idx: SideIndex)
      ensures idx.Valid()
    {
      Indexed(enc, lefts, sides)
    }

    function RightIndex(): (idx: SideIndex)
      ensures idx.Valid()
    {
      Indexed(enc, rights, sides)
    }

    function Clashes(): Collided {
      Collided(CollidedAmong(enc, Collisions(LeftIndex()), sides),
               CollidedAmong(enc, Collisions(RightIndex()), sides))
    }

    function Items(): seq<MergeItem> {
      Merge(Unique(LeftIndex()), Unique(RightIndex()))
    }
  }

  function PairedRows(env: Env, p: Paired): seq<PendingRow> {
    ClashRows(p.LeftIndex(), p.RightIndex()) + ItemRows(env, p.Clashes(), p.Items())
  }

  /** The ambiguous rows of a directory, the left's first. */
  function ClashRows(leftIndex: SideIndex, rightIndex: SideIndex): seq<PendingRow>
    requires leftIndex.Valid() && rightIndex.Valid()
  {
    CollisionRows(Collisions(leftIndex), Left) + CollisionRows(Collisions(rightIndex), Right)
  }

  function PairedFrames(env: Env, p: Paired, depth: U32): seq<Frame> {
    AllFrames(env.opts, p.Clashes(), depth, p.Items())
  }

  function LeftListing(env: Env, f: Frame): ListResult {
    ListVisible(env, env.left, f.left)
  }

  function RightListing(env: Env, f: Frame): ListResult {
    ListVisible(env, env.right, f.right)
  }

  /** Both listings of the frame succeeded. */
  predicate BothListed(env: Env, f: Frame) {
    LeftListing(env, f).Entries? && RightListing(env, f).Entries?
  }

  function PairedOf(env: Env, f: Frame): Paired
    requires BothListed(env, f)
  {
    Paired(env.enc, SidesFor(env, f), LeftListing(env, f).entries, RightListing(env, f).entries)
  }

  function ErrorRows(dir: Option<Entry>, res: ListResult, side: Side): seq<PendingRow> {
    match res
    case Entries(_) => []
    case CannotList(reason) =>
      [Flagged(if side == Left then dir else None, if side == Left then None else dir,
               Error, Presence, reason, side)]
  }

  /** The rows one visit emits, in order, when nothing cancels it. */
  function VisitRows(env: Env, f: Frame): seq<PendingRow> {
    if BothListed(env, f) then PairedRows(env, PairedOf(env, f))
    else ErrorRows(f.left, LeftListing(env, f), Left) + ErrorRows(f.right, RightListing(env, f), Right)
  }

  /** The frames one visit descends into, in key order. */
  function VisitFrames(env: Env, f: Frame): seq<Frame> {
    if BothListed(env, f) then PairedFrames(env, PairedOf(env, f), f.depth) else []
  }

  // ----- first facts -----

  lemma {:induction false} FewerFramesThanItems(opts: CompareOptions, c: Collided, depth: U32, items: seq<MergeItem>)
    ensures |AllFrames(opts, c, depth, items)| <= |items|
  {
    if items != [] {
      FewerFramesThanItems(opts, c, depth, items[1..]);
    }
  }

  /** A visit descends into no more frames than it has rows to deliver. */
  lemma NoFrameWithoutRow(env: Env, f: Frame)
    ensures |VisitFrames(env, f)| <= |VisitRows(env, f)|
  {
    if BothListed(env, f) {
      var p := PairedOf(env, f);
      FewerFramesThanItems(env.opts, p.Clashes(), f.depth, p.Items());
    }
  }

  // ----- what the merge-join does with two ascending lists -----

  function LeftOf(items: seq<MergeItem>): seq<Entry> {
    if items == [] then []
    else
      (match items[0]
       case LeftOnly(_, e) => [e]
       case RightOnly(_, _) => []
       case Both(_, l, _) => [l]) + LeftOf(items[1..])
  }

  function RightOf(items: seq<MergeItem>): seq<Entry> {
    if items == [] then []
    else
      (match items[0]
       case LeftOnly(_, _) => []
       case RightOnly(_, e) => [e]
       case Both(_, _, r) => [r]) + RightOf(items[1..])
  }

  lemma SecondsHead(us: seq<(Bytes, Entry)>)
    requires us != []
    ensures SecondsOf(us) == [us[0].1] + SecondsOf(us[1..])
  {
  }

  lemma SidesCons(item: MergeItem, rest: seq<MergeItem>)
    ensures LeftOf([item] + rest) == (if item.RightOnly? then [] else [if item.Both? then item.l else item.e]) + LeftOf(rest)
    ensures RightOf([item] + rest) == (if item.LeftOnly? then [] else [if item.Both? then item.r else item.e]) + RightOf(rest)
  {
    assert ([item] + rest)[1..] == rest;
  }

  /** Nothing is lost and nothing is invented: each side comes out whole, in its order. */
  lemma {:induction false} MergeKeepsBothSides(ls: seq<(Bytes, Entry)>, rs: seq<(Bytes, Entry)>)
    ensures LeftOf(Merge(ls, rs)) == SecondsOf(ls)
    ensures RightOf(Merge(ls, rs)) == SecondsOf(rs)
    decreases |ls| + |rs|
  {
    if ls == [] && rs == [] {
    } else if rs == [] || (ls != [] && Less(ls[0].0, rs[0].0)) {
      MergeKeepsBothSides(ls[1..], rs);
      SidesCons(LeftOnly(ls[0].0, ls[0].1), Merge(ls[1..], rs));
      SecondsHead(ls);
    } else if ls == [] || Less(rs[0].0, ls[0].0) {
      MergeKeepsBothSides(ls, rs[1..]);
      SidesCons(RightOnly(rs[0].0, rs[0].1), Merge(ls, rs[1..]));
      SecondsHead(rs);
    } else {
      MergeKeepsBothSides(ls[1..], rs[1..]);
      SidesCons(Both(ls[0].0, ls[0].1, rs[0].1), Merge(ls[1..], rs[1..]));
      SecondsHead(ls);
      SecondsHead(rs);
    }
  }

  /** Where the item's key is held: on both sides exactly when it pairs. */
  predicate Placed(ls: seq<(Bytes, Entry)>, rs: seq<(Bytes, Entry)>, item: MergeItem) {
    match item
    case LeftOnly(k, e) => (k, e) in ls && k !in FirstsOf(rs)
    case RightOnly(k, e) => (k, e) in rs && k !in FirstsOf(ls)
    case Both(k, l, r) => (k, l) in ls && (k, r) in rs
  }

  lemma AscendingHead(us: seq<(Bytes, Entry)>)
    requires us != [] && Ascending(FirstsOf(us))
    ensures FirstsOf(us) == [us[0].0] + FirstsOf(us[1..])
    ensures Ascending(FirstsOf(us[1..]))
    ensures us[0].0 !in FirstsOf(us[1..])
    ensures us == [us[0]] + us[1..]
  {
    var ks := FirstsOf(us);
    assert ks[1..] == FirstsOf(us[1..]);
    AscendingDistinct(ks);
  }

  /** A key below the first of an ascending list is nowhere in it. */
  lemma BelowAll(k: Bytes, us: seq<(Bytes, Entry)>)
    requires Ascending(FirstsOf(us))
    requires us == [] || Less(k, us[0].0)
    ensures k !in FirstsOf(us)
  {
    var ks := FirstsOf(us);
    if k in ks {
      var i :| 0 <= i < |ks| && ks[i] == k;
      LessIrreflexive(k);
      if i > 0 {
        LessAsymmetric(k, ks[0]);
      }
    }
  }

  lemma FirstIn(us: seq<(Bytes, Entry)>, u: (Bytes, Entry))
    requires u in us
    ensures u.0 in FirstsOf(us)
  {
    var i :| 0 <= i < |us| && us[i] == u;
    assert FirstsOf(us)[i] == u.0;
  }

  /** Putting back a head that no later key repeats leaves every later item where it was. */
  lemma PlacedWithHeads(ls: seq<(Bytes, Entry)>, rs: seq<(Bytes, Entry)>, dropL: bool, dropR: bool, item: MergeItem)
    requires dropL ==> ls != [] && FirstsOf(ls) == [ls[0].0] + FirstsOf(ls[1..])
    requires dropR ==> rs != [] && FirstsOf(rs) == [rs[0].0] + FirstsOf(rs[1..])
    requires dropL ==> ls[0].0 !in FirstsOf(if dropR then rs[1..] else rs)
    requires dropR ==> rs[0].0 !in FirstsOf(if dropL then ls[1..] else ls)
    requires Placed(if dropL then ls[1..] else ls, if dropR then rs[1..] else rs, item)
    ensures Placed(ls, rs, item)
  {
    var ls', rs' := if dropL then ls[1..] else ls, if dropR then rs[1..] else rs;
    match item
    case LeftOnly(k, e) => FirstIn(ls', (k, e));
    case RightOnly(k, e) => FirstIn(rs', (k, e));
    case Both(_, _, _) =>
  }

  lemma {:induction false} MergePlaces(ls: seq<(Bytes, Entry)>, rs: seq<(Bytes, Entry)>, item: MergeItem)
    requires Ascending(FirstsOf(ls)) && Ascending(FirstsOf(rs))
    requires item in Merge(ls, rs)
    ensures Placed(ls, rs, item)
    decreases |ls| + |rs|
  {
    if ls != [] { AscendingHead(ls); }
    if rs != [] { AscendingHead(rs); }
    if rs == [] || (ls != [] && Less(ls[0].0, rs[0].0)) {
      BelowAll(ls[0].0, rs);
      if item != LeftOnly(ls[0].0, ls[0].1) {
        MergePlaces(ls[1..], rs, item);
        PlacedWithHeads(ls, rs, true, false, item);
      }
    } else if ls == [] || Less(rs[0].0, ls[0].0) {
      BelowAll(rs[0].0, ls);
      if item != RightOnly(rs[0].0, rs[0].1) {
        MergePlaces(ls, rs[1..], item);
        PlacedWithHeads(ls, rs, false, true, item);
      }
    } else {
      LessTotal(ls[0].0, rs[0].0);
      if item != Both(ls[0].0, ls[0].1, rs[0].1) {
        MergePlaces(ls[1..], rs[1..], item);
        PlacedWithHeads(ls, rs, true, true, item);
      }
    }
  }
}
