/** What holds of the row of every pair. */
module PairTheorems {
  import opened Proto
  import opened Vfs
  import opened Cascade
  import opened Pair
  import Hash
  import Key

  // ----- hydration keeps identity -----

  /** What hydration may not touch: everything of the entry but its size and date. */
  function Stub(e: Entry): Entry {
    e.(size := None, mtimeMs := None)
  }

  /** A pair's row carries both sides, and they are the two listed entries but for size and date. */
  lemma PairRowKeepsEntries(env: Env, l: Entry, r: Entry)
    ensures var row := PairRow(env, l, r);
            && row.left.Some? && row.right.Some?
            && Stub(row.left.value) == Stub(l)
            && Stub(row.right.value) == Stub(r)
  {
    HydrateKeepsEntries(env, Known(l, false), Known(r, false));
  }

  lemma HydrateKeepsEntries(env: Env, l: Known, r: Known)
    ensures match Hydrate(env, l, r)
            case Ready(l1, r1) => Stub(l1.entry) == Stub(l.entry) && Stub(r1.entry) == Stub(r.entry)
            case Failed(l1, r1, _, _) => Stub(l1) == Stub(l.entry) && Stub(r1) == Stub(r.entry)
  {
  }

  // ----- demand-driven stats are exact -----

  /** The provider's `stat` answers, and the listing brought nothing it contradicts. */
  predicate Honest(p: Provider, e: Entry) {
    match p.stat(e.path)
    case None => false
    case Some(s) =>
      && (e.size.Some? ==> e.size == s.size)
      && (e.mtimeMs.Some? ==> e.mtimeMs == s.mtimeMs)
  }

  function FullyStatted(p: Provider, e: Entry): Entry
    requires p.stat(e.path).Some?
  {
    e.(size := p.stat(e.path).value.size, mtimeMs := p.stat(e.path).value.mtimeMs)
  }

  /** The verdict of a row, without the entries it shows. */
  function VerdictOf(row: PendingRow): PairVerdict {
    match row
    case Judged(d, _, _) => Decided(d)
    case Flagged(_, _, _, _, _, side) => Unread(side)
  }

  /** The cascade cannot tell the two pairs apart. */
  predicate SameForCascade(opts: CompareOptions, l: Entry, l': Entry, r: Entry, r': Entry) {
    && l.path == l'.path && r.path == r'.path
    && l.kind == l'.kind && r.kind == r'.kind
    && (BothFiles(l, r) ==> SizeAndMtime(l, r, opts) == SizeAndMtime(l', r', opts))
  }

  /** What is known of a side so far is on its way to the fully statted entry. */
  predicate Toward(p: Provider, full: Entry, k: Known) {
    && k.entry.path == full.path && k.entry.kind == full.kind
    && p.stat(k.entry.path).Some? && Filled(k.entry, p.stat(k.entry.path).value) == full
    && (k.entry.size.Some? ==> k.entry.size == full.size)
    && (k.entry.mtimeMs.Some? ==> k.entry.mtimeMs == full.mtimeMs)
    && (k.asked ==> k.entry == full)
  }

  lemma AskedToward(p: Provider, full: Entry, k: Known, rung: Criterion)
    requires Toward(p, full, k)
    ensures Asked(p, k, rung).Some? && Toward(p, full, Asked(p, k, rung).value)
    ensures rung == Size ==> Asked(p, k, rung).value.entry.size == full.size
    ensures rung == Mtime ==> Asked(p, k, rung).value.entry.mtimeMs == full.mtimeMs
    ensures k.entry.size == full.size ==> Asked(p, k, rung).value.entry.size == full.size
  {
  }

  lemma HydratedAsIfFully(env: Env, l: Entry, r: Entry)
    requires Honest(env.left, l) && Honest(env.right, r)
    ensures var h := Hydrate(env, Known(l, false), Known(r, false));
            && h.Ready?
            && SameForCascade(env.opts, h.l.entry, FullyStatted(env.left, l),
                              h.r.entry, FullyStatted(env.right, r))
  {
    hide Asked;
    var l0, r0 := Known(l, false), Known(r, false);
    var lf, rf := FullyStatted(env.left, l), FullyStatted(env.right, r);
    AskedToward(env.left, lf, l0, Size);
    AskedToward(env.right, rf, r0, Size);
    AskedToward(env.left, lf, l0, Mtime);
    AskedToward(env.right, rf, r0, Mtime);
    AskedToward(env.left, lf, Asked(env.left, l0, Size).value, Mtime);
    AskedToward(env.right, rf, Asked(env.right, r0, Size).value, Mtime);
  }

  lemma CascadeCannotTell(env: Env, l: Entry, l': Entry, r: Entry, r': Entry)
    requires SameForCascade(env.opts, l, l', r, r')
    ensures VerdictFor(env, l, r) == VerdictFor(env, l', r')
  {
    assert LinkFacts(env, l, r) == LinkFacts(env, l', r');
    assert forall facts :: CheapRungs(l, r, env.opts, facts) == CheapRungs(l', r', env.opts, facts);
  }

  /** Asking only for what the next rung needs answers what asking for everything would. */
  lemma DemandDrivenStatsAreExact(env: Env, l: Entry, r: Entry)
    requires Honest(env.left, l) && Honest(env.right, r)
    ensures VerdictOf(PairRow(env, l, r))
         == VerdictFor(env, FullyStatted(env.left, l), FullyStatted(env.right, r))
  {
    HydratedAsIfFully(env, l, r);
    var h := Hydrate(env, Known(l, false), Known(r, false));
    CascadeCannotTell(env, h.l.entry, FullyStatted(env.left, l), h.r.entry, FullyStatted(env.right, r));
  }

  /** The same comparison over providers that answer `stat` in another way. */
  function WithStats(env: Env, ls: VPath -> Option<Entry>, rs: VPath -> Option<Entry>): Env {
    env.(left := env.left.(stat := ls), right := env.right.(stat := rs))
  }

  /** A rung that runs on this pair lacks a field: two files, a size missing, or a date once sizes agree. */
  predicate LacksAField(opts: CompareOptions, l: Entry, r: Entry) {
    && BothFiles(l, r)
    && (|| (opts.criteria.size && (l.size.None? || r.size.None?))
        || (&& opts.criteria.mtime && (l.mtimeMs.None? || r.mtimeMs.None?)
            && (opts.criteria.size ==> SizesAgree(l, r))))
  }

  lemma UnaskedStats(env: Env, ls: VPath -> Option<Entry>, rs: VPath -> Option<Entry>, l: Entry, r: Entry)
    requires !LacksAField(env.opts, l, r)
    ensures PairRow(WithStats(env, ls, rs), l, r) == PairRow(env, l, r)
  {
    hide RowFor;
    StatsOnlyHydrate(env, ls, rs, l, r);
  }

  lemma StatsOnlyHydrate(env: Env, ls: VPath -> Option<Entry>, rs: VPath -> Option<Entry>, l: Entry, r: Entry)
    ensures RowFor(WithStats(env, ls, rs), l, r) == RowFor(env, l, r)
  {
    hide Decide;
  }

  lemma RowWhenStatsFail(env: Env, l: Entry, r: Entry)
    requires LacksAField(env.opts, l, r)
    ensures var row := PairRow(WithStats(env, _ => None, _ => None), l, r);
            row.Flagged? && row.reason == Unreadable
  {
  }

  lemma RowWhenStatsAnswer(env: Env, l: Entry, r: Entry)
    ensures var row := PairRow(WithStats(env, _ => Some(l), _ => Some(r)), l, r);
            row.Flagged? ==> row.reason == ReadFailed
  {
    hide RowFor;
    var with := WithStats(env, _ => Some(l), _ => Some(r));
    var h := Hydrate(with, Known(l, false), Known(r, false));
    assert h.Ready?;
    assert RowFor(with, h.l.entry, h.r.entry).Flagged? ==> RowFor(with, h.l.entry, h.r.entry).reason == ReadFailed by {
      UnreadIsReadFailed(with, h.l.entry, h.r.entry);
    }
  }

  lemma UnreadIsReadFailed(env: Env, l: Entry, r: Entry)
    ensures RowFor(env, l, r).Flagged? ==> RowFor(env, l, r).reason == ReadFailed
  {
  }

  /**
    Which pairs spend a `stat`, seen from outside: the row is the same whatever the providers
    would answer if and only if no rung that runs lacks a field. So a pair that is not two
    files never depends on a `stat`, nor do two files listed with all that is compared.
   */
  lemma OnlyFilesAreStatted(env: Env, l: Entry, r: Entry)
    ensures (forall ls, rs :: PairRow(WithStats(env, ls, rs), l, r) == PairRow(env, l, r)) <==>
            !LacksAField(env.opts, l, r)
  {
    hide PairRow, WithStats;
    if !LacksAField(env.opts, l, r) {
      forall ls, rs
        ensures PairRow(WithStats(env, ls, rs), l, r) == PairRow(env, l, r)
      {
        UnaskedStats(env, ls, rs, l, r);
      }
    } else {
      RowWhenStatsFail(env, l, r);
      RowWhenStatsAnswer(env, l, r);
    }
  }

  // ----- published confidence is truthful -----

  /** Each path's true bytes; `honest` says the provider tells the truth about them. */
  ghost predicate TrueTo(p: Provider, world: VPath -> Bytes) {
    && (forall path :: p.stat(path).Some? && p.stat(path).value.size.Some? ==>
          p.stat(path).value.size.value == |world(path)|)
    && (forall path :: Hash.Content(p.read(path)).Some? ==> Hash.Content(p.read(path)).value == world(path))
  }

  predicate TrueSize(world: VPath -> Bytes, e: Entry) {
    e.size.Some? ==> e.size.value == |world(e.path)|
  }

  lemma HydrationKeepsTrueSizes(env: Env, worldL: VPath -> Bytes, worldR: VPath -> Bytes, l: Entry, r: Entry)
    requires TrueTo(env.left, worldL) && TrueTo(env.right, worldR)
    requires TrueSize(worldL, l) && TrueSize(worldR, r)
    ensures var h := Hydrate(env, Known(l, false), Known(r, false));
            h.Ready? ==> TrueSize(worldL, h.l.entry) && TrueSize(worldR, h.r.entry)
  {
  }

  /** No row is published on a provisional decision. */
  predicate Final(row: PendingRow) {
    row.Judged? ==> !row.decision.needsHash
  }

  /** A row about two files says nothing its evidence does not prove. */
  ghost predicate Truthful(env: Env, worldL: VPath -> Bytes, worldR: VPath -> Bytes, l: VPath, r: VPath,
                           row: PendingRow) {
    row.Judged? ==>
      var d := row.decision;
      && (d.verdict == Different && d.confidence == Certain ==> worldL(l) != worldR(r))
      && (d.verdict == Same && d.criterion == Criterion.Hash ==> env.digest(worldL(l)) == env.digest(worldR(r)))
      && (d.verdict == Same && d.confidence == Certain ==> d.criterion == Criterion.Hash)
  }

  lemma HydratedRowIsTruthful(env: Env, worldL: VPath -> Bytes, worldR: VPath -> Bytes, l: Entry, r: Entry)
    requires TrueTo(env.left, worldL) && TrueTo(env.right, worldR)
    requires TrueSize(worldL, l) && TrueSize(worldR, r) && BothFiles(l, r)
    ensures Truthful(env, worldL, worldR, l.path, r.path, RowFor(env, l, r))
  {
    var facts := LinkFacts(env, l, r);
    ConfidenceIsEarned(l, r, env.opts, facts);
    ConfidenceIsEarned(l, r, env.opts, facts.(hash := HashOutcome.Equal));
    ConfidenceIsEarned(l, r, env.opts, facts.(hash := HashOutcome.Differ));
  }

  /**
    With true sizes and contents, `Different` with certainty means different bytes, and `Same`
    by hash means equal digests of the whole contents, however they were chunked.
   */
  lemma PublishedConfidenceIsTruthful(
      env: Env, worldL: VPath -> Bytes, worldR: VPath -> Bytes, l: Entry, r: Entry)
    requires TrueTo(env.left, worldL) && TrueTo(env.right, worldR)
    requires TrueSize(worldL, l) && TrueSize(worldR, r)
    requires BothFiles(l, r)
    ensures Truthful(env, worldL, worldR, l.path, r.path, PairRow(env, l, r))
  {
    var h := Hydrate(env, Known(l, false), Known(r, false));
    HydrateKeepsEntries(env, Known(l, false), Known(r, false));
    if h.Ready? {
      HydrationKeepsTrueSizes(env, worldL, worldR, l, r);
      HydratedRowIsTruthful(env, worldL, worldR, h.l.entry, h.r.entry);
    }
  }

  lemma PairRowIsFinal(env: Env, l: Entry, r: Entry)
    ensures Final(PairRow(env, l, r))
  {
  }

  // ----- mirror symmetry of one pair, exactly -----

  function MirrorPending(p: PendingRow): PendingRow {
    match p
    case Judged(d, left, right) => Judged(MirrorDecision(d), right, left)
    case Flagged(left, right, verdict, criterion, reason, side) =>
      Flagged(right, left, MirrorVerdict(verdict), criterion, reason, Flip(side))
  }

  /** Mirroring a row before or after it gets its id is the same. */
  lemma RowOfMirrors(enc: Key.Encoding, p: PendingRow, id: nat)
    ensures RowOf(enc, MirrorPending(p), id) == MirrorRow(RowOf(enc, p, id))
  {
    if p.left.Some? && p.right.Some? {
      Key.NoSilentPairing(enc, PairName(p.left.value), PairName(p.right.value));
    }
  }

  /** Giving a final row its id forgets nothing of it. */
  lemma RowOfInjective(enc: Key.Encoding, p: PendingRow, q: PendingRow, id: nat)
    requires Final(p) && Final(q)
    requires RowOf(enc, p, id) == RowOf(enc, q, id)
    ensures p == q
  {
  }

  function MirrorHydration(h: Hydration): Hydration {
    match h
    case Ready(l, r) => Ready(r, l)
    case Failed(l, r, side, rung) => Failed(r, l, Flip(side), rung)
  }

  /**
    Which side is asked first cannot be seen in this rung: unless both must be asked and one
    fails, in which case the other must have answered what was already known.
   */
  predicate RungMirrors(env: Env, rung: Criterion, l: Known, r: Known) {
    MustAsk(l, rung) && MustAsk(r, rung) ==>
      match (env.left.stat(l.entry.path), env.right.stat(r.entry.path))
      case (Some(_), Some(_)) => true
      case (None, None) => false
      case (None, Some(s)) => Filled(r.entry, s) == r.entry
      case (Some(s), None) => Filled(l.entry, s) == l.entry
  }

  lemma AskBothMirrors(env: Env, rung: Criterion, l: Known, r: Known)
    ensures AskBoth(env.Swap(), rung, r, l) == MirrorHydration(AskBoth(env, rung, l, r)) <==>
            RungMirrors(env, rung, l, r)
    ensures AskBoth(env.Swap(), rung, r, l).Ready? <==> AskBoth(env, rung, l, r).Ready?
  {
  }

  /** The rungs that run on this pair are all mirrored. */
  predicate HydrationMirrors(env: Env, l: Known, r: Known) {
    BothFiles(l.entry, r.entry) ==>
      if env.opts.criteria.size then
        && RungMirrors(env, Size, l, r)
        && var h := AskBoth(env, Size, l, r);
           (h.Ready? && SizesAgree(h.l.entry, h.r.entry) && env.opts.criteria.mtime ==>
              RungMirrors(env, Mtime, h.l, h.r))
      else env.opts.criteria.mtime ==> RungMirrors(env, Mtime, l, r)
  }

  lemma HydrateMirrors(env: Env, l: Known, r: Known)
    ensures Hydrate(env.Swap(), r, l) == MirrorHydration(Hydrate(env, l, r)) <==> HydrationMirrors(env, l, r)
    ensures Hydrate(env.Swap(), r, l).Ready? <==> Hydrate(env, l, r).Ready?
    ensures Hydrate(env, l, r).Ready? ==> HydrationMirrors(env, l, r)
  {
    AskBothMirrors(env, Size, l, r);
    AskBothMirrors(env, Mtime, l, r);
    var h := AskBoth(env, Size, l, r);
    if h.Ready? {
      AskBothMirrors(env, Mtime, h.l, h.r);
    }
  }

  /** The expensive rung runs on this pair and neither file can be read. */
  predicate BothUnreadable(env: Env, l: Entry, r: Entry) {
    && Decide(l, r, env.opts, LinkFacts(env, l, r)).needsHash
    && Hash.Content(env.left.read(l.path)).None?
    && Hash.Content(env.right.read(r.path)).None?
  }

  lemma RowForMirrors(env: Env, l: Entry, r: Entry)
    ensures RowFor(env.Swap(), r, l) == MirrorPending(RowFor(env, l, r)) <==> !BothUnreadable(env, l, r)
  {
    var facts := LinkFacts(env, l, r);
    assert LinkFacts(env.Swap(), r, l) == facts.Swap();
    DecideMirrors(l, r, env.opts, facts);
    DecideMirrors(l, r, env.opts, facts.(hash := HashOutcome.Equal));
    DecideMirrors(l, r, env.opts, facts.(hash := HashOutcome.Differ));
    DecideIgnoresOrphanSide(r, l, env.opts, FlipOption(env.opts.descendOrphans));
  }

  lemma DecideIgnoresOrphanSide(l: Entry, r: Entry, opts: CompareOptions, side: Option<Side>)
    ensures forall facts :: Decide(l, r, opts.(descendOrphans := side), facts) == Decide(l, r, opts, facts)
  {
  }

  /** When comparing this pair the other way round gives exactly the mirrored row. */
  predicate PairMirrors(env: Env, l: Entry, r: Entry) {
    var h := Hydrate(env, Known(l, false), Known(r, false));
    && HydrationMirrors(env, Known(l, false), Known(r, false))
    && (h.Ready? ==> !BothUnreadable(env, h.l.entry, h.r.entry))
  }

  /** One pair has no favourite side if and only if `PairMirrors`. */
  lemma PairRowMirrors(env: Env, l: Entry, r: Entry)
    ensures PairRow(env.Swap(), r, l) == MirrorPending(PairRow(env, l, r)) <==> PairMirrors(env, l, r)
  {
    HydrateMirrors(env, Known(l, false), Known(r, false));
    var h := Hydrate(env, Known(l, false), Known(r, false));
    if h.Ready? {
      RowForMirrors(env, h.l.entry, h.r.entry);
    }
  }

  /** Two files of which both can be statted and at least one can be read. */
  predicate Answers(env: Env, l: Entry, r: Entry) {
    BothFiles(l, r) ==>
      && env.left.stat(l.path).Some? && env.right.stat(r.path).Some?
      && (Hash.Content(env.left.read(l.path)).Some? || Hash.Content(env.right.read(r.path)).Some?)
  }

  /** The provisos under which the design promises symmetry are enough. */
  lemma NoFailureMirrors(env: Env, l: Entry, r: Entry)
    requires Answers(env, l, r)
    ensures PairMirrors(env, l, r)
  {
  }

  /** A pair neither of whose files opens: each direction blames the side it calls left. */
  lemma SymmetryFailsWhenBothAreUnreadable(env: Env, l: Entry, r: Entry)
    requires BothFiles(l, r) && env.opts.criteria == Criteria(false, false, true)
    requires env.left.read(l.path) == Unopenable && env.right.read(r.path) == Unopenable
    ensures PairRow(env, l, r).side == Left && PairRow(env.Swap(), r, l).side == Left
    ensures PairRow(env.Swap(), r, l) != MirrorPending(PairRow(env, l, r))
  {
    PairRowMirrors(env, l, r);
  }

  /**
    Two files without a size, of which the left cannot be statted and the right can: one
    direction stops at the left failure and shows no size, the other has learned the right's
    size before it fails.
   */
  lemma SymmetryFailsWhenOneStatFails(env: Env, l: Entry, r: Entry)
    requires BothFiles(l, r) && env.opts.criteria.size && l.size.None? && r.size.None?
    requires env.left.stat(l.path).None?
    requires env.right.stat(r.path).Some? && env.right.stat(r.path).value.size.Some?
    ensures PairRow(env, l, r) == Flagged(Some(l), Some(r), Error, Size, Unreadable, Left)
    ensures PairRow(env.Swap(), r, l).left.value.size.Some?
    ensures PairRow(env.Swap(), r, l) != MirrorPending(PairRow(env, l, r))
  {
  }
}
