/**
  The rows a comparison publishes, said of what a client sees: their fields, the providers'
  answers, and the bytes of names, with no reference to how a row is computed.
 */
module Published {
  import opened Proto
  import opened Vfs
  import opened Key
  import opened Cascade
  import opened Pair
  import Hash

  // ----- what a row can say -----

  predicate Says(row: CompareRow, verdict: Verdict, criterion: Criterion, confidence: Confidence, newer: Option<Side>) {
    && row.verdict == verdict && row.criterion == criterion && row.confidence == confidence
    && row.newer == newer && row.reason == None && row.side == None
  }

  predicate Reports(row: CompareRow, verdict: Verdict, criterion: Criterion, reason: Reason, side: Side) {
    && row.verdict == verdict && row.criterion == criterion && row.confidence == Unknown
    && row.newer == None && row.reason == Some(reason) && row.side == Some(side)
  }

  // ----- the mark -----

  function LastSegment(path: VPath): Bytes {
    if path.segments == [] then [] else path.segments[|path.segments| - 1]
  }

  /** The mark of a row of two names `a` and `b`, in terms of their keys under each mode. */
  predicate MarkOf(enc: Encoding, a: Bytes, b: Bytes, mark: Option<PairTransform>) {
    var unfolded, simple, full :=
      enc.nameKey(a, NoFold) == enc.nameKey(b, NoFold),
      enc.nameKey(a, Simple) == enc.nameKey(b, Simple),
      enc.nameKey(a, Full) == enc.nameKey(b, Full);
    var singleton := enc.hasSingleton(a) || enc.hasSingleton(b);
    && (mark == None <==> a == b || (!unfolded && !simple && !full))
    && (mark == Some(NormalizedSingleton) <==> a != b && (unfolded || simple || full) && singleton)
    && (mark == Some(Normalized) <==> a != b && unfolded && !singleton)
    && (mark == Some(FoldedCase) <==> a != b && simple && !unfolded && !singleton)
    && (mark == Some(FullFolded) <==> a != b && full && !simple && !unfolded && !singleton)
  }

  predicate Marked(enc: Encoding, row: CompareRow) {
    if row.left.Some? && row.right.Some?
    then MarkOf(enc, LastSegment(row.left.value.path), LastSegment(row.right.value.path), row.pairedUnder)
    else row.pairedUnder == None
  }

  lemma TransformIsMark(enc: Encoding, a: Bytes, b: Bytes)
    ensures MarkOf(enc, a, b, PairTransformOf(enc, a, b))
  {
  }

  lemma RowIsMarked(enc: Encoding, p: PendingRow, id: nat)
    ensures Marked(enc, RowOf(enc, p, id)) && RowOf(enc, p, id).id == id
    ensures RowOf(enc, p, id).left == p.left && RowOf(enc, p, id).right == p.right
  {
    hide PairTransformOf, MarkOf;
    if p.left.Some? && p.right.Some? {
      TransformIsMark(enc, PairName(p.left.value), PairName(p.right.value));
    }
  }

  // ----- the row of a pair -----

  /** Which side's date is the later one. */
  function Later(l: Entry, r: Entry): Side
    requires l.mtimeMs.Some? && r.mtimeMs.Some?
  {
    if l.mtimeMs.value > r.mtimeMs.value then Left else Right
  }

  /** Two files that could be asked all they were asked: size, else date, else hash, else as much as is known. */
  predicate FilesSay(env: Env, l: Entry, r: Entry, row: CompareRow) {
    var a, b := Hash.Content(env.left.read(l.path)), Hash.Content(env.right.read(r.path));
    if SizesDiffer(l, r, env.opts) then Says(row, Different, Size, Certain, None)
    else if DatesDiffer(l, r, env.opts) then Says(row, Different, Mtime, Probable, Some(Later(l, r)))
    else if env.opts.criteria.hash && a.None? then Reports(row, Error, Criterion.Hash, ReadFailed, Left)
    else if env.opts.criteria.hash && b.None? then Reports(row, Error, Criterion.Hash, ReadFailed, Right)
    else if env.opts.criteria.hash then
      Says(row, if env.digest(a.value) == env.digest(b.value) then Same else Different, Criterion.Hash, Certain, None)
    else if env.opts.criteria.size && (l.size.None? || r.size.None?) then Says(row, Same, Size, Unknown, None)
    else if env.opts.criteria.mtime then
      Says(row, Same, Mtime, if l.mtimeMs.Some? && r.mtimeMs.Some? then Probable else Unknown, None)
    else Says(row, Same, Presence, Unknown, None)
  }

  predicate LinksSay(a: Option<Bytes>, b: Option<Bytes>, row: CompareRow) {
    if a.Some? && b.Some? then Says(row, if a.value == b.value then Same else Different, LinkTarget, Certain, None)
    else Says(row, Same, LinkTarget, Unknown, None)
  }

  /** What a row about two entries, as it shows them, must say if no `stat` failed. */
  predicate PairSays(env: Env, l: Entry, r: Entry, row: CompareRow) {
    if l.kind != r.kind then Says(row, TypeMismatch, Kind, Certain, None)
    else
      match l.kind
      case File => FilesSay(env, l, r, row)
      case Dir => Says(row, Same, Kind, Certain, None)
      case Symlink => LinksSay(env.left.readLink(l.path), env.right.readLink(r.path), row)
      case Other => Says(row, Same, Kind, Unknown, None)
  }

  lemma RowForSays(env: Env, l: Entry, r: Entry, id: nat)
    ensures PairSays(env, l, r, RowOf(env.enc, RowFor(env, l, r), id))
  {
    hide PairedUnder;
    VerdictIsExact(l, r, env.opts, LinkFacts(env, l, r));
    if l.mtimeMs.Some? && r.mtimeMs.Some? {
      MtimeTestIsExact(l.mtimeMs.value, r.mtimeMs.value, env.opts.mtimeToleranceMs);
    }
  }

  // ----- which stats fail, and what the others fill in -----

  /** The size rung must ask this side. */
  predicate AsksSize(env: Env, l: Entry, r: Entry, e: Entry) {
    l.kind == File && r.kind == File && env.opts.criteria.size && e.size == None
  }

  function KnownSize(p: Provider, e: Entry): Option<nat> {
    if e.size.Some? then e.size
    else if p.stat(e.path).Some? then p.stat(e.path).value.size else None
  }

  /** The date rung runs: dates are asked about, and sizes, if asked about, are known and equal. */
  predicate DateRungRuns(env: Env, l: Entry, r: Entry) {
    && l.kind == File && r.kind == File && env.opts.criteria.mtime
    && (env.opts.criteria.size ==>
          KnownSize(env.left, l).Some? && KnownSize(env.left, l) == KnownSize(env.right, r))
  }

  /** Sizes are asked before dates, the left before the right, and nobody twice: the first `stat` to fail. */
  function FirstFailure(env: Env, l: Entry, r: Entry): Option<(Criterion, Side)> {
    if AsksSize(env, l, r, l) && env.left.stat(l.path) == None then Some((Size, Left))
    else if AsksSize(env, l, r, r) && env.right.stat(r.path) == None then Some((Size, Right))
    else if !DateRungRuns(env, l, r) then None
    else if l.mtimeMs == None && !AsksSize(env, l, r, l) && env.left.stat(l.path) == None then Some((Mtime, Left))
    else if r.mtimeMs == None && !AsksSize(env, l, r, r) && env.right.stat(r.path) == None then Some((Mtime, Right))
    else None
  }

  /** Some rung that runs asks this side: for its size, or for its date. */
  predicate IsAsked(env: Env, l: Entry, r: Entry, e: Entry) {
    AsksSize(env, l, r, e) || (DateRungRuns(env, l, r) && e.mtimeMs == None)
  }

  /** The listed entry with the size and date of its `stat`. */
  function Statted(p: Provider, e: Entry): Entry {
    if p.stat(e.path).None? then e
    else e.(size := p.stat(e.path).value.size, mtimeMs := p.stat(e.path).value.mtimeMs)
  }

  /** A row about two listed entries: the first failed `stat`, or what the two say once asked what had to be. */
  predicate PairFits(env: Env, l: Entry, r: Entry, row: CompareRow) {
    match FirstFailure(env, l, r)
    case Some((rung, side)) =>
      && Reports(row, Error, rung, Unreadable, side)
      && (row.left == Some(l) || row.left == Some(Statted(env.left, l)))
      && (row.right == Some(r) || row.right == Some(Statted(env.right, r)))
    case None =>
      && row.left == Some(if IsAsked(env, l, r, l) then Statted(env.left, l) else l)
      && row.right == Some(if IsAsked(env, l, r, r) then Statted(env.right, r) else r)
      && PairSays(env, row.left.value, row.right.value, row)
  }

  /** Both sizes asked for, where they had to be. */
  lemma AskSizes(env: Env, l: Entry, r: Entry)
    requires BothFiles(l, r) && env.opts.criteria.size
    ensures var al, ar := AsksSize(env, l, r, l), AsksSize(env, l, r, r);
            var l1, r1 := if al then Statted(env.left, l) else l, if ar then Statted(env.right, r) else r;
            AskBoth(env, Size, Known(l, false), Known(r, false)) ==
              if al && env.left.stat(l.path) == None then Failed(l, r, Left, Size)
              else if ar && env.right.stat(r.path) == None then Failed(l1, r, Right, Size)
              else Ready(Known(l1, al), Known(r1, ar))
  {
  }

  lemma AskDates(env: Env, l: Known, r: Known)
    ensures var al, ar := l.entry.mtimeMs == None && !l.asked, r.entry.mtimeMs == None && !r.asked;
            var l1 := if al then Known(Statted(env.left, l.entry), true) else l;
            var r1 := if ar then Known(Statted(env.right, r.entry), true) else r;
            AskBoth(env, Mtime, l, r) ==
              if al && env.left.stat(l.entry.path) == None then Failed(l.entry, r.entry, Left, Mtime)
              else if ar && env.right.stat(r.entry.path) == None then Failed(l1.entry, r.entry, Right, Mtime)
              else Ready(l1, r1)
  {
  }

  lemma HydrateIsExact(env: Env, l: Entry, r: Entry)
    ensures var h := Hydrate(env, Known(l, false), Known(r, false));
            h.Failed? ==>
              && FirstFailure(env, l, r) == Some((h.rung, h.side))
              && (h.left == l || h.left == Statted(env.left, l)) && (h.right == r || h.right == Statted(env.right, r))
    ensures var h := Hydrate(env, Known(l, false), Known(r, false));
            h.Ready? ==>
              && FirstFailure(env, l, r) == None
              && h.l.entry == (if IsAsked(env, l, r, l) then Statted(env.left, l) else l)
              && h.r.entry == (if IsAsked(env, l, r, r) then Statted(env.right, r) else r)
  {
    hide AskBoth;
    if BothFiles(l, r) {
      if env.opts.criteria.size {
        AskSizes(env, l, r);
        var h := AskBoth(env, Size, Known(l, false), Known(r, false));
        if h.Ready? {
          AskDates(env, h.l, h.r);
        }
      } else {
        AskDates(env, Known(l, false), Known(r, false));
      }
    }
  }

  /** Every row about a pair, under any id, is exactly what the two providers' answers make it. */
  lemma PairIsPublished(env: Env, l: Entry, r: Entry, id: nat)
    ensures PairFits(env, l, r, RowOf(env.enc, PairRow(env, l, r), id))
  {
    hide Hydrate, RowFor, FirstFailure, IsAsked, Statted, PairSays, PairedUnder;
    HydrateIsExact(env, l, r);
    match Hydrate(env, Known(l, false), Known(r, false))
    case Failed(_, _, _, _) =>
    case Ready(l1, r1) =>
      RowForSays(env, l1.entry, r1.entry, id);
      RowForShows(env, l1.entry, r1.entry);
      RowIsMarked(env.enc, RowFor(env, l1.entry, r1.entry), id);
  }

  lemma RowForShows(env: Env, l: Entry, r: Entry)
    ensures RowFor(env, l, r).left == Some(l) && RowFor(env, l, r).right == Some(r)
  {
  }
}
