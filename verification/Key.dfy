/**
  Names are compared through a key. A listing is indexed by it; a key with one holder makes its
  entry pairable, a key with several makes all of its entries collisions. How a name becomes a
  key is a parameter (`Encoding`), and no law of it is assumed.
 */
module Key {
  import opened Proto
  import opened ByteOrder

  datatype FoldMode = NoFold | Simple | Full

  datatype Capabilities = Capabilities(caseSensitive: bool, fullFold: bool)

  function FoldModeOf(c: Capabilities): FoldMode {
    if c.fullFold then Full else if c.caseSensitive then NoFold else Simple
  }

  datatype Sides = Sides(left: FoldMode, right: FoldMode) {
    /** `Full` if either side folds fully, else `Simple` if either folds at all. */
    function Fold(): FoldMode {
      match (left, right)
      case (Full, _) => Full
      case (_, Full) => Full
      case (Simple, _) => Simple
      case (_, Simple) => Simple
      case _ => NoFold
    }

    function Swap(): Sides {
      Sides(right, left)
    }
  }

  const BOTH_CASE_SENSITIVE: Sides := Sides(NoFold, NoFold)

  function SidesFromCapabilities(left: Capabilities, right: Capabilities): Sides {
    Sides(FoldModeOf(left), FoldModeOf(right))
  }

  /** `norte_encoding`, as the engine sees it: a key per name and mode, and the singleton test. */
  datatype Encoding = Encoding(nameKey: (Bytes, FoldMode) -> Bytes, hasSingleton: Bytes -> bool)

  function KeyFor(enc: Encoding, name: Bytes, sides: Sides): Bytes {
    enc.nameKey(name, sides.Fold())
  }

  // ----- the mark on a pair of different names -----

  function PairTransformOf(enc: Encoding, left: Bytes, right: Bytes): Option<PairTransform> {
    if left == right then None
    else
      var normalizes := KeyFor(enc, left, BOTH_CASE_SENSITIVE) == KeyFor(enc, right, BOTH_CASE_SENSITIVE);
      var simple := Sides(Simple, NoFold);
      var full := Sides(Full, NoFold);
      var foldsSimple := KeyFor(enc, left, simple) == KeyFor(enc, right, simple);
      var foldsFull := foldsSimple || KeyFor(enc, left, full) == KeyFor(enc, right, full);
      if !normalizes && !foldsFull then None
      else if enc.hasSingleton(left) || enc.hasSingleton(right) then Some(NormalizedSingleton)
      else if normalizes then Some(Normalized)
      else if foldsSimple then Some(FoldedCase)
      else Some(FullFolded)
  }

  /** Do the two names pair under these sides? */
  predicate Pairs(enc: Encoding, left: Bytes, right: Bytes, sides: Sides) {
    KeyFor(enc, left, sides) == KeyFor(enc, right, sides)
  }

  /**
    No silent pairing: a transform is named exactly when byte-different names pair under some
    sides, whichever those are; the singleton answer has priority over the other three, and among
    those the weakest fold that pairs the names is the one named.
   */
  lemma NoSilentPairing(enc: Encoding, left: Bytes, right: Bytes)
    ensures PairTransformOf(enc, left, right).Some? <==>
            left != right && exists sides :: Pairs(enc, left, right, sides)
    ensures PairTransformOf(enc, left, right) == Some(NormalizedSingleton) <==>
            && left != right
            && (enc.hasSingleton(left) || enc.hasSingleton(right))
            && exists sides :: Pairs(enc, left, right, sides)
    ensures PairTransformOf(enc, left, right) == Some(FullFolded) <==>
            && left != right
            && !enc.hasSingleton(left) && !enc.hasSingleton(right)
            && (exists sides :: Pairs(enc, left, right, sides))
            && forall sides :: Pairs(enc, left, right, sides) ==> sides.Fold() == Full
    ensures PairTransformOf(enc, left, right) == Some(Normalized) <==>
            && left != right
            && !enc.hasSingleton(left) && !enc.hasSingleton(right)
            && enc.nameKey(left, NoFold) == enc.nameKey(right, NoFold)
    ensures PairTransformOf(enc, left, right) == Some(FoldedCase) <==>
            && left != right
            && !enc.hasSingleton(left) && !enc.hasSingleton(right)
            && enc.nameKey(left, NoFold) != enc.nameKey(right, NoFold)
            && enc.nameKey(left, Simple) == enc.nameKey(right, Simple)
    ensures PairTransformOf(enc, left, right) == PairTransformOf(enc, right, left)
  {
    if left != right {
      var n, s, f := BOTH_CASE_SENSITIVE, Sides(Simple, NoFold), Sides(Full, NoFold);
      assert n.Fold() == NoFold && s.Fold() == Simple && f.Fold() == Full;
      forall sides
        ensures Pairs(enc, left, right, sides) ==>
                Pairs(enc, left, right, n) || Pairs(enc, left, right, s) || Pairs(enc, left, right, f)
        ensures Pairs(enc, left, right, sides) && sides.Fold() != Full ==>
                Pairs(enc, left, right, n) || Pairs(enc, left, right, s)
      {
        match sides.Fold()
        case NoFold =>
        case Simple =>
        case Full =>
      }
    }
  }

  /** How much a mode folds. */
  function Strength(m: FoldMode): nat {
    match m
    case NoFold => 0
    case Simple => 1
    case Full => 2
  }

  /** The mode of a pair is one of its two sides', and at least as strong as either. */
  lemma FoldIsTheStronger(sides: Sides)
    ensures sides.Fold() == sides.left || sides.Fold() == sides.right
    ensures Strength(sides.left) <= Strength(sides.Fold()) && Strength(sides.right) <= Strength(sides.Fold())
  {
  }

  /** What two declarations mean for a pair: folded fully if either side is, not at all only if both keep case. */
  lemma DeclaredFold(left: Capabilities, right: Capabilities)
    ensures var mode := SidesFromCapabilities(left, right).Fold();
            && (mode == Full <==> left.fullFold || right.fullFold)
            && (mode == NoFold <==>
                  left.caseSensitive && right.caseSensitive && !left.fullFold && !right.fullFold)
  {
  }

  lemma FoldIsSymmetric(sides: Sides)
    ensures sides.Swap().Fold() == sides.Fold()
  {
  }

  // ----- one side indexed by its key -----

  function KeyOf(enc: Encoding, e: Entry, sides: Sides): Bytes {
    KeyFor(enc, PairName(e), sides)
  }

  function Keys(enc: Encoding, entries: seq<Entry>, sides: Sides): (ks: seq<Bytes>)
    ensures |ks| == |entries|
    ensures forall i :: 0 <= i < |ks| ==> ks[i] == KeyOf(enc, entries[i], sides)
  {
    seq(|entries|, i requires 0 <= i < |entries| => KeyOf(enc, entries[i], sides))
  }

  /** The positions holding key `k`, in listing order. */
  function Positions(ks: seq<Bytes>, k: Bytes): seq<nat> {
    if ks == [] then []
    else
      var n := |ks| - 1;
      Positions(ks[..n], k) + (if ks[n] == k then [n] else [])
  }

  lemma {:induction false} PositionsSpec(ks: seq<Bytes>, k: Bytes)
    ensures forall p :: 0 <= p < |ks| && ks[p] == k ==> p in Positions(ks, k)
    ensures forall i :: 0 <= i < |Positions(ks, k)| ==>
              Positions(ks, k)[i] < |ks| && ks[Positions(ks, k)[i]] == k
  {
    if ks != [] {
      var n := |ks| - 1;
      PositionsSpec(ks[..n], k);
      forall p | 0 <= p < |ks| && ks[p] == k
        ensures p in Positions(ks, k)
      {
        if p < n {
          assert ks[..n][p] == k;
        }
      }
    }
  }

  lemma {:induction false} PositionsDistinct(ks: seq<Bytes>, k: Bytes)
    ensures forall i, j :: 0 <= i < j < |Positions(ks, k)| ==> Positions(ks, k)[i] < Positions(ks, k)[j]
  {
    if ks != [] {
      PositionsSpec(ks[..|ks| - 1], k);
      PositionsDistinct(ks[..|ks| - 1], k);
    }
  }

  /** How many entries of the listing hold key `k`. */
  function Holders(enc: Encoding, entries: seq<Entry>, sides: Sides, k: Bytes): nat {
    |Positions(Keys(enc, entries, sides), k)|
  }

  /** Another entry shares this one's key. */
  predicate Collides(ks: seq<Bytes>, i: nat)
    requires i < |ks|
  {
    exists j :: 0 <= j < |ks| && j != i && ks[j] == ks[i]
  }

  lemma CollidesIffHeldTwice(ks: seq<Bytes>, i: nat)
    requires i < |ks|
    ensures Collides(ks, i) <==> |Positions(ks, ks[i])| >= 2
    ensures !Collides(ks, i) <==> Positions(ks, ks[i]) == [i]
  {
    var ps := Positions(ks, ks[i]);
    PositionsSpec(ks, ks[i]);
    PositionsDistinct(ks, ks[i]);
    assert i in ps;
    if |ps| >= 2 {
      assert ps[0] < ps[1];
      assert ks[ps[0]] == ks[i] && ks[ps[1]] == ks[i];
    } else {
      assert ps == [i];
    }
  }

  /** Another entry shares this one's key, and still does without folding. */
  predicate HasTwin(ks: seq<Bytes>, raw: seq<Bytes>, i: nat)
    requires i < |ks| == |raw|
  {
    exists j :: 0 <= j < |ks| && j != i && ks[j] == ks[i] && raw[j] == raw[i]
  }

  function ReasonAt(ks: seq<Bytes>, raw: seq<Bytes>, i: nat): Option<Reason>
    requires i < |ks| == |raw|
  {
    if !Collides(ks, i) then None
    else if HasTwin(ks, raw, i) then Some(Normalization)
    else Some(CaseFold)
  }

  /** The reason of each entry of the listing, `None` where nothing collides. */
  function Reasons(enc: Encoding, entries: seq<Entry>, sides: Sides): (rs: seq<Option<Reason>>)
    ensures |rs| == |entries|
    ensures forall i :: 0 <= i < |rs| ==>
              rs[i] == ReasonAt(Keys(enc, entries, sides), Keys(enc, entries, BOTH_CASE_SENSITIVE), i)
  {
    var ks := Keys(enc, entries, sides);
    var raw := Keys(enc, entries, BOTH_CASE_SENSITIVE);
    seq(|entries|, i requires 0 <= i < |entries| => ReasonAt(ks, raw, i))
  }

  datatype SideIndex = SideIndex(entries: seq<Entry>, byKey: map<Bytes, seq<nat>>, reasons: seq<Option<Reason>>) {
    predicate Valid() {
      && |reasons| == |entries|
      && (forall k, p :: k in byKey && p in byKey[k] ==> p < |entries|)
    }
  }

  /** What indexing one side means: the reference `IndexSide` is proved against. */
  function Indexed(enc: Encoding, entries: seq<Entry>, sides: Sides): (idx: SideIndex)
    ensures idx.Valid()
  {
    var ks := Keys(enc, entries, sides);
    var byKey := map k | k in ks :: Positions(ks, k);
    assert forall k, p :: k in byKey && p in byKey[k] ==> p < |entries| by {
      forall k, p | k in byKey && p in byKey[k]
        ensures p < |entries|
      {
        PositionsSpec(ks, k);
      }
    }
    SideIndex(entries, byKey, Reasons(enc, entries, sides))
  }

  method IndexSide(enc: Encoding, entries: seq<Entry>, sides: Sides) returns (idx: SideIndex)
    ensures idx == Indexed(enc, entries, sides)
  {
    var byKey := GroupByKey(enc, entries, sides);
    var reasons := AllReasons(enc, entries, sides, byKey);
    idx := SideIndex(entries, byKey, reasons);
    assert idx.byKey == Indexed(enc, entries, sides).byKey;
  }

  /** The first loop of `index_side`: each position filed under its key. */
  method GroupByKey(enc: Encoding, entries: seq<Entry>, sides: Sides) returns (byKey: map<Bytes, seq<nat>>)
    ensures var ks := Keys(enc, entries, sides);
            && (forall k :: k in byKey <==> k in ks)
            && (forall k :: k in byKey ==> byKey[k] == Positions(ks, k))
  {
    ghost var ks := Keys(enc, entries, sides);
    byKey := map[];
    for i := 0 to |entries|
      invariant forall k :: k in byKey <==> k in ks[..i]
      invariant forall k :: k in byKey ==> byKey[k] == Positions(ks[..i], k)
    {
      var k := KeyOf(enc, entries[i], sides);
      PositionsStep(ks, i);
      byKey := byKey[k := (if k in byKey then byKey[k] else []) + [i]];
    }
    assert ks[..|entries|] == ks;
  }

  lemma PositionsStep(ks: seq<Bytes>, i: nat)
    requires i < |ks|
    ensures ks[..i + 1] == ks[..i] + [ks[i]]
    ensures forall k :: Positions(ks[..i + 1], k) == Positions(ks[..i], k) + (if ks[i] == k then [i] else [])
    ensures ks[i] !in ks[..i] ==> Positions(ks[..i], ks[i]) == []
  {
    assert ks[..i + 1][..i] == ks[..i];
    PositionsSpec(ks[..i], ks[i]);
    var ps := Positions(ks[..i], ks[i]);
    assert ps != [] ==> ks[..i][ps[0]] == ks[i];
  }

  /** The second loop of `index_side`: one group after another, in an order that cannot matter. */
  method AllReasons(enc: Encoding, entries: seq<Entry>, sides: Sides, byKey: map<Bytes, seq<nat>>)
    returns (reasons: seq<Option<Reason>>)
    requires forall k :: k in byKey <==> k in Keys(enc, entries, sides)
    requires forall k :: k in byKey ==> byKey[k] == Positions(Keys(enc, entries, sides), k)
    ensures reasons == Reasons(enc, entries, sides)
  {
    ghost var ks := Keys(enc, entries, sides);
    ghost var want := Reasons(enc, entries, sides);
    reasons := seq(|entries|, _ => None);
    var todo := byKey.Keys;
    while todo != {}
      invariant |reasons| == |entries|
      invariant todo <= byKey.Keys
      invariant forall i :: 0 <= i < |entries| ==> reasons[i] == if ks[i] in todo then None else want[i]
      decreases todo
    {
      var k :| k in todo;
      reasons := OneGroup(enc, entries, sides, k, byKey[k], reasons);
      todo := todo - {k};
    }
  }

  /** One turn of that loop: a group of one is skipped, a larger one gets its reasons. */
  method OneGroup(enc: Encoding, entries: seq<Entry>, sides: Sides, ghost k: Bytes, idxs: seq<nat>,
                  reasons: seq<Option<Reason>>)
    returns (out: seq<Option<Reason>>)
    requires |reasons| == |entries|
    requires idxs == Positions(Keys(enc, entries, sides), k)
    requires forall i :: 0 <= i < |entries| && Keys(enc, entries, sides)[i] == k ==> reasons[i] == None
    ensures |out| == |entries|
    ensures forall i :: 0 <= i < |entries| ==>
              out[i] == if Keys(enc, entries, sides)[i] == k then Reasons(enc, entries, sides)[i] else reasons[i]
  {
    ghost var ks := Keys(enc, entries, sides);
    ghost var raw := Keys(enc, entries, BOTH_CASE_SENSITIVE);
    PositionsSpec(ks, k);
    PositionsDistinct(ks, k);
    out := reasons;
    if |idxs| >= 2 {
      out := GroupReasons(enc, entries, idxs, reasons);
    }
    forall i | 0 <= i < |entries|
      ensures out[i] == if ks[i] == k then ReasonAt(ks, raw, i) else reasons[i]
    {
      if ks[i] == k {
        CollidesIffHeldTwice(ks, i);
        var n :| 0 <= n < |idxs| && idxs[n] == i;
        if |idxs| >= 2 {
          TwinWithinGroup(ks, raw, k, RawGroup(enc, entries, idxs), n);
        }
      }
    }
  }

  /** The unfolded keys of one group. */
  function RawGroup(enc: Encoding, entries: seq<Entry>, idxs: seq<nat>): (raw: seq<Bytes>)
    requires forall n :: 0 <= n < |idxs| ==> idxs[n] < |entries|
    ensures |raw| == |idxs|
    ensures forall n :: 0 <= n < |idxs| ==> raw[n] == KeyOf(enc, entries[idxs[n]], BOTH_CASE_SENSITIVE)
  {
    seq(|idxs|, n requires 0 <= n < |idxs| => KeyOf(enc, entries[idxs[n]], BOTH_CASE_SENSITIVE))
  }

  /** The inner loop: a reason for each entry of one colliding group, and nothing else touched. */
  method GroupReasons(enc: Encoding, entries: seq<Entry>, idxs: seq<nat>, reasons: seq<Option<Reason>>)
    returns (out: seq<Option<Reason>>)
    requires |reasons| == |entries|
    requires forall n :: 0 <= n < |idxs| ==> idxs[n] < |entries|
    requires forall n, m :: 0 <= n < m < |idxs| ==> idxs[n] < idxs[m]
    ensures |out| == |entries|
    ensures forall n :: 0 <= n < |idxs| ==>
              out[idxs[n]] == Some(if Repeated(RawGroup(enc, entries, idxs), n) then Normalization else CaseFold)
    ensures forall i :: 0 <= i < |entries| && i !in idxs ==> out[i] == reasons[i]
  {
    var raw := RawGroup(enc, entries, idxs);
    out := reasons;
    for pos := 0 to |idxs|
      invariant |out| == |entries|
      invariant forall n :: 0 <= n < pos ==>
                  out[idxs[n]] == Some(if Repeated(raw, n) then Normalization else CaseFold)
      invariant forall i :: 0 <= i < |entries| && i !in idxs ==> out[i] == reasons[i]
    {
      out := out[idxs[pos] := Some(if Repeated(raw, pos) then Normalization else CaseFold)];
    }
  }

  predicate Repeated(raw: seq<Bytes>, pos: nat)
    requires pos < |raw|
  {
    exists other :: 0 <= other < |raw| && other != pos && raw[other] == raw[pos]
  }

  /** Looking for a twin among the group's positions is looking for one in the whole listing. */
  lemma TwinWithinGroup(ks: seq<Bytes>, raw: seq<Bytes>, k: Bytes, rawGroup: seq<Bytes>, pos: nat)
    requires |ks| == |raw| && pos < |Positions(ks, k)| == |rawGroup| && |rawGroup| >= 2
    requires forall n :: 0 <= n < |rawGroup| ==>
               Positions(ks, k)[n] < |ks| && rawGroup[n] == raw[Positions(ks, k)[n]]
    ensures ReasonAt(ks, raw, Positions(ks, k)[pos])
         == Some(if Repeated(rawGroup, pos) then Normalization else CaseFold)
  {
    var idxs := Positions(ks, k);
    PositionsSpec(ks, k);
    PositionsDistinct(ks, k);
    var i := idxs[pos];
    CollidesIffHeldTwice(ks, i);
    if Repeated(rawGroup, pos) {
      var other :| 0 <= other < |rawGroup| && other != pos && rawGroup[other] == rawGroup[pos];
      assert idxs[other] != i;
      assert ks[idxs[other]] == ks[i];
    }
    if HasTwin(ks, raw, i) {
      var j :| 0 <= j < |ks| && j != i && ks[j] == ks[i] && raw[j] == raw[i];
      var other :| 0 <= other < |idxs| && idxs[other] == j;
    }
  }

  // ----- what pairs and what collides -----

  function UniqueAmong(idx: SideIndex, keys: seq<Bytes>): (r: seq<(Bytes, Entry)>)
    requires idx.Valid()
    requires forall k :: k in keys ==> k in idx.byKey
  {
    if keys == [] then []
    else
      var rest := UniqueAmong(idx, keys[1..]);
      var idxs := idx.byKey[keys[0]];
      if |idxs| == 1 then
        assert idxs[0] in idxs;
        [(keys[0], idx.entries[idxs[0]])] + rest
      else rest
  }

  /** The pairable entries, in key order. */
  function Unique(idx: SideIndex): seq<(Bytes, Entry)>
    requires idx.Valid()
  {
    UniqueAmong(idx, SortedKeys(idx.byKey.Keys))
  }

  function CollisionsUpTo(idx: SideIndex, n: nat): seq<(Entry, Reason)>
    requires idx.Valid() && n <= |idx.entries|
  {
    if n == 0 then []
    else
      CollisionsUpTo(idx, n - 1) +
      (if idx.reasons[n - 1].Some? then [(idx.entries[n - 1], idx.reasons[n - 1].value)] else [])
  }

  /** The positions with a reason, as entries. */
  function Collisions(idx: SideIndex): seq<(Entry, Reason)>
    requires idx.Valid()
  {
    CollisionsUpTo(idx, |idx.entries|)
  }

  /** The entry of a key with exactly one holder. */
  function Get(idx: SideIndex, key: Bytes): Option<Entry>
    requires idx.Valid()
  {
    if key in idx.byKey && |idx.byKey[key]| == 1 then
      assert idx.byKey[key][0] in idx.byKey[key];
      Some(idx.entries[idx.byKey[key][0]])
    else None
  }

  function CollidedAmong(enc: Encoding, cs: seq<(Entry, Reason)>, sides: Sides): map<Bytes, Reason> {
    if cs == [] then map[]
    else
      var n := |cs| - 1;
      var m := CollidedAmong(enc, cs[..n], sides);
      var k := KeyOf(enc, cs[n].0, sides);
      if k in m then m else m[k := cs[n].1]
  }

  /** No collision before the `i`-th has its key. */
  predicate FirstOfItsKey(enc: Encoding, cs: seq<(Entry, Reason)>, sides: Sides, i: nat)
    requires i < |cs|
  {
    forall j :: 0 <= j < i ==> KeyOf(enc, cs[j].0, sides) != KeyOf(enc, cs[i].0, sides)
  }

  /** A collided key keeps the reason of the first collision that has it. */
  lemma {:induction false} FirstReasonIsKept(enc: Encoding, cs: seq<(Entry, Reason)>, sides: Sides, i: nat)
    requires i < |cs| && FirstOfItsKey(enc, cs, sides, i)
    ensures var m, k := CollidedAmong(enc, cs, sides), KeyOf(enc, cs[i].0, sides);
            k in m && m[k] == cs[i].1
  {
    var n := |cs| - 1;
    if i < n {
      FirstReasonIsKept(enc, cs[..n], sides, i);
    } else {
      CollidedAmongSpec(enc, cs[..n], sides);
    }
  }

  /** `CollidedAmong` as a loop, and what it keeps of each key. */
  method CollidedKeys(enc: Encoding, idx: SideIndex, sides: Sides) returns (out: map<Bytes, Reason>)
    requires idx.Valid()
    ensures out == CollidedAmong(enc, Collisions(idx), sides)
    ensures var cs := Collisions(idx);
            && (forall k :: k in out <==> exists i :: 0 <= i < |cs| && KeyOf(enc, cs[i].0, sides) == k)
            && (forall i :: 0 <= i < |cs| && FirstOfItsKey(enc, cs, sides, i) ==>
                  KeyOf(enc, cs[i].0, sides) in out && out[KeyOf(enc, cs[i].0, sides)] == cs[i].1)
  {
    hide KeyOf, Collisions;
    var cs := Collisions(idx);
    out := map[];
    for i := 0 to |cs|
      invariant out == CollidedAmong(enc, cs[..i], sides)
    {
      assert cs[..i + 1][..i] == cs[..i];
      var k := KeyOf(enc, cs[i].0, sides);
      if k !in out {
        out := out[k := cs[i].1];
      }
    }
    assert cs[..|cs|] == cs;
    CollidedAmongSpec(enc, cs, sides);
    forall i | 0 <= i < |cs| && FirstOfItsKey(enc, cs, sides, i)
      ensures KeyOf(enc, cs[i].0, sides) in out && out[KeyOf(enc, cs[i].0, sides)] == cs[i].1
    {
      FirstReasonIsKept(enc, cs, sides, i);
    }
  }

  // ----- exact meaning of the three views of an index -----

  function FirstsOf(us: seq<(Bytes, Entry)>): (ks: seq<Bytes>)
    ensures |ks| == |us|
    ensures forall i :: 0 <= i < |us| ==> ks[i] == us[i].0
  {
    seq(|us|, i requires 0 <= i < |us| => us[i].0)
  }

  function SecondsOf(us: seq<(Bytes, Entry)>): (es: seq<Entry>)
    ensures |es| == |us|
    ensures forall i :: 0 <= i < |us| ==> es[i] == us[i].1
  {
    seq(|us|, i requires 0 <= i < |us| => us[i].1)
  }

  lemma {:induction false} UniqueAmongMembers(idx: SideIndex, keys: seq<Bytes>)
    requires idx.Valid()
    requires forall k :: k in keys ==> k in idx.byKey
    ensures forall u :: u in UniqueAmong(idx, keys) <==> u.0 in keys && Get(idx, u.0) == Some(u.1)
  {
    if keys != [] {
      UniqueAmongMembers(idx, keys[1..]);
      assert keys == [keys[0]] + keys[1..];
    }
  }

  lemma {:induction false} UniqueAmongAscends(idx: SideIndex, keys: seq<Bytes>)
    requires idx.Valid() && Ascending(keys)
    requires forall k :: k in keys ==> k in idx.byKey
    ensures Ascending(FirstsOf(UniqueAmong(idx, keys)))
  {
    if keys != [] {
      var us := UniqueAmong(idx, keys);
      var rest := UniqueAmong(idx, keys[1..]);
      UniqueAmongAscends(idx, keys[1..]);
      UniqueAmongMembers(idx, keys[1..]);
      if us != rest {
        assert us == [us[0]] + rest;
        AscendingCons(us[0].0, FirstsOf(rest), keys[1..]);
        assert FirstsOf(us) == [us[0].0] + FirstsOf(rest);
      }
    }
  }

  lemma AscendingCons(k: Bytes, ks: seq<Bytes>, bound: seq<Bytes>)
    requires Ascending(ks)
    requires forall x :: x in ks ==> x in bound
    requires forall i :: 0 <= i < |bound| ==> Less(k, bound[i])
    ensures Ascending([k] + ks)
  {
    forall j | 0 <= j < |ks|
      ensures Less(k, ks[j])
    {
      assert ks[j] in ks;
    }
  }

  /**
    The merge-join's input, exactly: one item per key the listing holds once, with the entry
    holding it, in ascending key order.
   */
  lemma UniqueSpec(enc: Encoding, entries: seq<Entry>, sides: Sides)
    ensures Ascending(FirstsOf(Unique(Indexed(enc, entries, sides))))
    ensures forall u :: u in Unique(Indexed(enc, entries, sides)) <==> HeldOnce(enc, entries, sides, u)
  {
    var idx := Indexed(enc, entries, sides);
    var keys := SortedKeys(idx.byKey.Keys);
    UniqueAmongMembers(idx, keys);
    UniqueAmongAscends(idx, keys);
    forall u: (Bytes, Entry)
      ensures u in Unique(idx) <==> HeldOnce(enc, entries, sides, u)
    {
      GetSpec(enc, entries, sides, u.0, u.1);
    }
  }

  /** `u.1` is the one entry of the listing whose key is `u.0`. */
  predicate HeldOnce(enc: Encoding, entries: seq<Entry>, sides: Sides, u: (Bytes, Entry)) {
    u.1 in entries && KeyOf(enc, u.1, sides) == u.0 && Holders(enc, entries, sides, u.0) == 1
  }

  /** A key answers exactly when one entry of the listing holds it, and answers that entry. */
  lemma GetSpec(enc: Encoding, entries: seq<Entry>, sides: Sides, k: Bytes, e: Entry)
    ensures Get(Indexed(enc, entries, sides), k) == Some(e) <==> HeldOnce(enc, entries, sides, (k, e))
  {
    var ks := Keys(enc, entries, sides);
    PositionsSpec(ks, k);
    if e in entries {
      var i :| 0 <= i < |entries| && entries[i] == e;
      if ks[i] == k {
        CollidesIffHeldTwice(ks, i);
      }
    }
  }

  lemma {:induction false} CollisionsUpToSpec(idx: SideIndex, n: nat)
    requires idx.Valid() && n <= |idx.entries|
    ensures forall c :: c in CollisionsUpTo(idx, n) <==>
              exists i :: 0 <= i < n && idx.entries[i] == c.0 && idx.reasons[i] == Some(c.1)
  {
    if n > 0 {
      CollisionsUpToSpec(idx, n - 1);
    }
  }

  /** Every collision row's entry holds its key together with another one, and the other way round. */
  lemma CollisionsSpec(enc: Encoding, entries: seq<Entry>, sides: Sides)
    ensures var cs := Collisions(Indexed(enc, entries, sides));
            && (forall c :: c in cs ==>
                 c.0 in entries && Holders(enc, entries, sides, KeyOf(enc, c.0, sides)) >= 2)
            && (forall e :: e in entries && Holders(enc, entries, sides, KeyOf(enc, e, sides)) >= 2 ==>
                 exists c :: c in cs && c.0 == e)
  {
    var idx := Indexed(enc, entries, sides);
    var ks := Keys(enc, entries, sides);
    var cs := Collisions(idx);
    CollisionsUpToSpec(idx, |entries|);
    forall i | 0 <= i < |entries|
      ensures idx.reasons[i].Some? <==> Holders(enc, entries, sides, ks[i]) >= 2
    {
      CollidesIffHeldTwice(ks, i);
    }
    forall e | e in entries && Holders(enc, entries, sides, KeyOf(enc, e, sides)) >= 2
      ensures exists c :: c in cs && c.0 == e
    {
      var i :| 0 <= i < |entries| && entries[i] == e;
      assert (e, idx.reasons[i].value) in cs;
    }
  }

  lemma {:induction false} CollisionPositions(idx: SideIndex, n: nat) returns (at: seq<nat>)
    requires idx.Valid() && n <= |idx.entries|
    ensures InListingOrder(idx, CollisionsUpTo(idx, n), at)
    ensures forall i :: i in at <==> 0 <= i < n && idx.reasons[i].Some?
  {
    at := [];
    if n > 0 {
      at := CollisionPositions(idx, n - 1);
      assert forall j :: 0 <= j < |at| ==> at[j] in at;
      if idx.reasons[n - 1].Some? {
        at := at + [n - 1];
      }
    }
  }

  /** The collisions are the entries at these positions, with their reasons, in listing order. */
  predicate InListingOrder(idx: SideIndex, cs: seq<(Entry, Reason)>, at: seq<nat>)
    requires idx.Valid()
  {
    && |at| == |cs|
    && (forall m, n :: 0 <= m < n < |at| ==> at[m] < at[n])
    && (forall n :: 0 <= n < |at| ==>
          && at[n] < |idx.entries|
          && cs[n].0 == idx.entries[at[n]]
          && idx.reasons[at[n]] == Some(cs[n].1))
  }

  /**
    The collisions, exactly: one for each position whose key the listing holds twice or more
    and for no other, in listing order, with the reason of that position.
   */
  lemma CollisionsInOrder(enc: Encoding, entries: seq<Entry>, sides: Sides) returns (at: seq<nat>)
    ensures var idx := Indexed(enc, entries, sides);
            InListingOrder(idx, Collisions(idx), at)
    ensures forall i :: i in at <==>
              0 <= i < |entries| && Holders(enc, entries, sides, KeyOf(enc, entries[i], sides)) >= 2
  {
    var idx, ks := Indexed(enc, entries, sides), Keys(enc, entries, sides);
    at := CollisionPositions(idx, |entries|);
    forall i | 0 <= i < |entries|
      ensures idx.reasons[i].Some? <==> Holders(enc, entries, sides, ks[i]) >= 2
    {
      CollidesIffHeldTwice(ks, i);
    }
  }

  lemma {:induction false} CollidedAmongSpec(enc: Encoding, cs: seq<(Entry, Reason)>, sides: Sides)
    ensures forall k :: k in CollidedAmong(enc, cs, sides) <==>
              exists i :: 0 <= i < |cs| && KeyOf(enc, cs[i].0, sides) == k
  {
    if cs != [] {
      var n := |cs| - 1;
      CollidedAmongSpec(enc, cs[..n], sides);
      var m := CollidedAmong(enc, cs[..n], sides);
      forall k
        ensures k in CollidedAmong(enc, cs, sides) <==> exists i :: 0 <= i < |cs| && KeyOf(enc, cs[i].0, sides) == k
      {
        if k in CollidedAmong(enc, cs, sides) && k in m {
          var i :| 0 <= i < n && KeyOf(enc, cs[..n][i].0, sides) == k;
          assert KeyOf(enc, cs[i].0, sides) == k;
        }
        if i :| 0 <= i < |cs| && KeyOf(enc, cs[i].0, sides) == k {
          if i < n {
            assert cs[..n][i] == cs[i];
          }
        }
      }
    }
  }

  /** The collided keys of a side are exactly those it holds twice or more. */
  lemma CollidedKeysSpec(enc: Encoding, entries: seq<Entry>, sides: Sides, k: Bytes)
    ensures k in CollidedAmong(enc, Collisions(Indexed(enc, entries, sides)), sides) <==>
            Holders(enc, entries, sides, k) >= 2
  {
    var cs := Collisions(Indexed(enc, entries, sides));
    var ks := Keys(enc, entries, sides);
    CollisionsSpec(enc, entries, sides);
    CollidedAmongSpec(enc, cs, sides);
    if Holders(enc, entries, sides, k) >= 2 {
      var ps := Positions(ks, k);
      PositionsSpec(ks, k);
      var c :| c in cs && c.0 == entries[ps[0]];
      var i :| 0 <= i < |cs| && cs[i] == c;
      assert KeyOf(enc, cs[i].0, sides) == k;
    }
    if k in CollidedAmong(enc, cs, sides) {
      var i :| 0 <= i < |cs| && KeyOf(enc, cs[i].0, sides) == k;
      assert cs[i] in cs;
    }
  }

  lemma {:induction false} FewKeys(ks: seq<Bytes>)
    ensures |set k | k in ks| <= |ks|
  {
    if ks != [] {
      var n := |ks| - 1;
      FewKeys(ks[..n]);
      assert ks == ks[..n] + [ks[n]];
      assert (set k | k in ks) == (set k | k in ks[..n]) + {ks[n]};
    }
  }

  lemma {:induction false} FewUnique(idx: SideIndex, keys: seq<Bytes>)
    requires idx.Valid()
    requires forall k :: k in keys ==> k in idx.byKey
    ensures |UniqueAmong(idx, keys)| <= |keys|
  {
    if keys != [] {
      FewUnique(idx, keys[1..]);
    }
  }

  /** No more pairable entries than entries. */
  lemma UniqueIsNoLonger(enc: Encoding, entries: seq<Entry>, sides: Sides)
    ensures |Unique(Indexed(enc, entries, sides))| <= |entries|
  {
    var idx := Indexed(enc, entries, sides);
    var ks := Keys(enc, entries, sides);
    FewKeys(ks);
    assert idx.byKey.Keys == set k | k in ks;
    FewUnique(idx, SortedKeys(idx.byKey.Keys));
  }
}
