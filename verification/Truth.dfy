/** Over whole runs: no row claims more than its evidence, and each is well formed. */
module Truth {
  import opened Proto
  import opened Key
  import opened Pair
  import opened PairTheorems
  import opened Listing
  import opened Visit
  import opened Traversal
  import opened Bounds
  import opened Vfs
  import opened Cascade

  /** The sizes a listing brings, where it brings any, are the true ones. */
  ghost predicate ListsTruly(env: Env, p: Provider, world: VPath -> Bytes) {
    forall dir, e :: ListVisible(env, p, dir).Entries? && e in ListVisible(env, p, dir).entries ==> TrueSize(world, e)
  }

  /** What a row about two files may claim, and that it is final. */
  ghost predicate Sound(env: Env, worldL: VPath -> Bytes, worldR: VPath -> Bytes, row: PendingRow) {
    && Final(row)
    && (row.left.Some? && row.right.Some? && BothFiles(row.left.value, row.right.value) ==>
          Truthful(env, worldL, worldR, row.left.value.path, row.right.value.path, row))
  }

  lemma PairRowSound(env: Env, worldL: VPath -> Bytes, worldR: VPath -> Bytes, l: Entry, r: Entry)
    requires TrueTo(env.left, worldL) && TrueTo(env.right, worldR)
    requires TrueSize(worldL, l) && TrueSize(worldR, r)
    ensures Sound(env, worldL, worldR, PairRow(env, l, r))
  {
    hide PairRow, TrueTo, Truthful;
    PairRowIsFinal(env, l, r);
    PairRowKeepsEntries(env, l, r);
    var row := PairRow(env, l, r);
    assert Stub(row.left.value).kind == l.kind && Stub(row.right.value).kind == r.kind;
    assert Stub(row.left.value).path == l.path && Stub(row.right.value).path == r.path;
    if BothFiles(l, r) {
      PublishedConfidenceIsTruthful(env, worldL, worldR, l, r);
    }
  }

  lemma ItemRowSound(env: Env, worldL: VPath -> Bytes, worldR: VPath -> Bytes, p: Paired, item: MergeItem)
    requires TrueTo(env.left, worldL) && TrueTo(env.right, worldR)
    requires forall e :: e in p.lefts ==> TrueSize(worldL, e)
    requires forall e :: e in p.rights ==> TrueSize(worldR, e)
    requires item in p.Items()
    ensures Sound(env, worldL, worldR, ItemRow(env, p.Clashes(), item))
  {
    hide PairRow, TrueTo, Truthful, TrueSize, Indexed, Unique, Collisions, CollidedAmong, Merge, Holders, KeyFor;
    UniqueSpec(p.enc, p.lefts, p.sides);
    UniqueSpec(p.enc, p.rights, p.sides);
    MergePlaces(Unique(p.LeftIndex()), Unique(p.RightIndex()), item);
    if item.Both? {
      PairRowSound(env, worldL, worldR, item.l, item.r);
    }
  }

  lemma VisitRowsSound(env: Env, worldL: VPath -> Bytes, worldR: VPath -> Bytes, f: Frame, i: nat)
    requires TrueTo(env.left, worldL) && TrueTo(env.right, worldR)
    requires ListsTruly(env, env.left, worldL) && ListsTruly(env, env.right, worldR)
    requires i < |VisitRows(env, f)|
    ensures Sound(env, worldL, worldR, VisitRows(env, f)[i])
  {
    hide ListVisible, SidesFor, TrueTo, Truthful, TrueSize, ItemRow, Indexed, Unique, Collisions, CollidedAmong, Merge;
    if BothListed(env, f) {
      var p := PairedOf(env, f);
      var n := |ClashRows(p.LeftIndex(), p.RightIndex())|;
      if i >= n {
        assert p.Items()[i - n] in p.Items();
        ItemRowSound(env, worldL, worldR, p, p.Items()[i - n]);
      }
    }
  }

  /**
    Over every run: with true sizes and contents, no row emitted by any number of visits is
    provisional, calls different with certainty two files with the same bytes, or equal by
    hash two whose digests differ.
   */
  lemma EveryRunIsTruthful(env: Env, worldL: VPath -> Bytes, worldR: VPath -> Bytes, n: nat, todo: seq<Frame>)
    requires TrueTo(env.left, worldL) && TrueTo(env.right, worldR)
    requires ListsTruly(env, env.left, worldL) && ListsTruly(env, env.right, worldR)
    ensures forall i :: 0 <= i < |RowsAfter(Trees(env), n, todo)| ==>
              Sound(env, worldL, worldR, RowsAfter(Trees(env), n, todo)[i])
  {
    hide VisitRows, VisitFrames, RowsAfter, Agenda, Sound, TrueTo, ListsTruly;
    var inv := (f: Frame) => true;
    var p := row => Sound(env, worldL, worldR, row);
    forall f, i | 0 <= i < |Trees(env).rows(f)|
      ensures p(Trees(env).rows(f)[i])
    {
      VisitRowsSound(env, worldL, worldR, f, i);
    }
    InvariantOverRuns(Trees(env), inv, p, n, todo);
  }

  // ----- what the wire requires of every row -----

  /** Under any id the row is well formed: something is shown, and verdict, sides and reason agree. */
  predicate WellFormed(enc: Encoding, row: PendingRow) {
    && (row.left.Some? || row.right.Some?)
    && SidesAreConsistent(RowOf(enc, row, 0))
    && ReasonIsConsistent(RowOf(enc, row, 0))
  }

  lemma PairRowWellFormed(env: Env, l: Entry, r: Entry)
    ensures WellFormed(env.enc, PairRow(env, l, r))
  {
    hide Hydrate, PairedUnder, LinkFacts;
    PairRowKeepsEntries(env, l, r);
  }

  lemma FlaggedWellFormed(enc: Encoding, row: PendingRow)
    requires row.Flagged? && (row.verdict == Ambiguous || row.verdict == Error) && (row.left.Some? || row.right.Some?)
    ensures WellFormed(enc, row)
  {
    hide PairedUnder;
  }

  lemma OneSidedWellFormed(enc: Encoding, left: Option<Entry>, right: Option<Entry>, collided: Option<Reason>, side: Side)
    requires left.Some? <==> right.None?
    ensures WellFormed(enc, SideRow(left, right, collided, side))
  {
    hide PairedUnder;
  }

  lemma VisitRowsWellFormed(env: Env, f: Frame, i: nat)
    requires i < |VisitRows(env, f)|
    ensures WellFormed(env.enc, VisitRows(env, f)[i])
  {
    hide ListAll, Retain, SidesFor, PairRow, SideRow, WellFormed, Indexed, Unique, Collisions, CollidedAmong, Merge;
    if BothListed(env, f) {
      var p := PairedOf(env, f);
      var n := |ClashRows(p.LeftIndex(), p.RightIndex())|;
      if i < n {
        FlaggedWellFormed(env.enc, VisitRows(env, f)[i]);
      } else {
        match p.Items()[i - n]
        case LeftOnly(k, e) => OneSidedWellFormed(env.enc, Some(e), None, Lookup(p.Clashes().right, k), Right);
        case RightOnly(k, e) => OneSidedWellFormed(env.enc, None, Some(e), Lookup(p.Clashes().left, k), Left);
        case Both(_, l, r) => PairRowWellFormed(env, l, r);
      }
    } else {
      FlaggedWellFormed(env.enc, VisitRows(env, f)[i]);
    }
  }

  /** Over every run, whatever the providers answer: each row is well formed under the id it gets. */
  lemma EveryRowIsWellFormed(env: Env, n: nat, todo: seq<Frame>)
    ensures forall i, id: nat :: 0 <= i < |RowsAfter(Trees(env), n, todo)| ==>
              var row := RowOf(env.enc, RowsAfter(Trees(env), n, todo)[i], id);
              && (row.left.Some? || row.right.Some?)
              && SidesAreConsistent(row) && ReasonIsConsistent(row)
  {
    hide VisitRows, VisitFrames, RowsAfter, Agenda, PairedUnder;
    var inv := (f: Frame) => true;
    var p := row => WellFormed(env.enc, row);
    forall f, i | 0 <= i < |Trees(env).rows(f)|
      ensures p(Trees(env).rows(f)[i])
    {
      VisitRowsWellFormed(env, f, i);
    }
    InvariantOverRuns(Trees(env), inv, p, n, todo);
  }
}
