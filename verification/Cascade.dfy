/**
  The decision ladder as a pure function of two entries, the options, and the facts that cost
  a read (`Prefetched`): first the kinds, then link targets or sizes and dates, last the hash.
 */
module Cascade {
  import opened Proto
  import Key

  datatype HashOutcome = NotRun | Equal | Differ

  datatype Prefetched = Prefetched(leftTarget: Option<Bytes>, rightTarget: Option<Bytes>, hash: HashOutcome) {
    function Swap(): Prefetched {
      Prefetched(rightTarget, leftTarget, hash)
    }
  }

  datatype Decision = Decision(
    verdict: Verdict,
    criterion: Criterion,
    confidence: Confidence,
    newer: Option<Side>,
    needsHash: bool)

  function Rung(verdict: Verdict, criterion: Criterion, confidence: Confidence): Decision {
    Decision(verdict, criterion, confidence, None, false)
  }

  const ONLY_LEFT: Decision := Rung(OnlyLeft, Presence, Certain)
  const ONLY_RIGHT: Decision := Rung(OnlyRight, Presence, Certain)

  function LinkTargetRung(facts: Prefetched): Decision {
    match (facts.leftTarget, facts.rightTarget)
    case (Some(l), Some(r)) => Rung(if l == r then Same else Different, LinkTarget, Certain)
    case _ => Rung(Same, LinkTarget, Unknown)
  }

  function MtimeRung(left: Entry, right: Entry, opts: CompareOptions): Decision {
    if left.mtimeMs.None? || right.mtimeMs.None? then Rung(Same, Mtime, Unknown)
    else
      var l, r := left.mtimeMs.value, right.mtimeMs.value;
      if Abs(SaturatingSub(l, r)) > opts.mtimeToleranceMs then
        Rung(Different, Mtime, Probable).(newer := Some(if l > r then Left else Right))
      else Rung(Same, Mtime, Probable)
  }

  function SizeAndMtime(left: Entry, right: Entry, opts: CompareOptions): Decision {
    if opts.criteria.size && left.size.Some? && right.size.Some? && left.size != right.size then
      Rung(Different, Size, Certain)
    else if opts.criteria.size && (left.size.None? || right.size.None?) then
      Rung(Same, Size, Unknown)
    else if opts.criteria.mtime then
      MtimeRung(left, right, opts)
    else
      Rung(Same, Presence, Unknown)
  }

  function CheapRungs(left: Entry, right: Entry, opts: CompareOptions, facts: Prefetched): Decision {
    if left.kind != right.kind then Rung(TypeMismatch, Kind, Certain)
    else
      match left.kind
      case File => SizeAndMtime(left, right, opts)
      case Dir => Rung(Same, Kind, Certain)
      case Symlink => LinkTargetRung(facts)
      case Other => Rung(Same, Kind, Unknown)
  }

  function Decide(left: Entry, right: Entry, opts: CompareOptions, facts: Prefetched): Decision {
    var cheap := CheapRungs(left, right, opts, facts);
    if !opts.criteria.hash || cheap.verdict != Same || left.kind != File then cheap
    else
      match facts.hash
      case NotRun => cheap.(needsHash := true)
      case Equal => Rung(Same, Hash, Certain)
      case Differ => Rung(Different, Hash, Certain)
  }

  function IntoRow(enc: Key.Encoding, d: Decision, id: nat, left: Option<Entry>, right: Option<Entry>): CompareRow {
    CompareRow(id, left, right, d.verdict, d.criterion, d.confidence, d.newer, None, None,
               PairedUnder(enc, left, right))
  }

  /** The mark of a row whose two names paired; none for a row of one side. */
  function PairedUnder(enc: Key.Encoding, left: Option<Entry>, right: Option<Entry>): Option<PairTransform> {
    match (left, right)
    case (Some(l), Some(r)) => Key.PairTransformOf(enc, PairName(l), PairName(r))
    case _ => None
  }

  // ----- properties -----

  /** The saturated date test is the test over the integers: no tolerance makes it overflow. */
  lemma MtimeTestIsExact(l: I64, r: I64, tolerance: U32)
    ensures Abs(SaturatingSub(l, r)) > tolerance <==> Abs(l - r) > tolerance
  {
  }

  function MirrorDecision(d: Decision): Decision {
    d.(verdict := MirrorVerdict(d.verdict), newer := FlipOption(d.newer))
  }

  /** Deciding the pair the other way round gives the mirrored decision, for all entries, options and facts. */
  lemma DecideMirrors(left: Entry, right: Entry, opts: CompareOptions, facts: Prefetched)
    ensures Decide(right, left, opts, facts.Swap()) == MirrorDecision(Decide(left, right, opts, facts))
  {
    if left.mtimeMs.Some? && right.mtimeMs.Some? {
      MtimeTestIsExact(left.mtimeMs.value, right.mtimeMs.value, opts.mtimeToleranceMs);
      MtimeTestIsExact(right.mtimeMs.value, left.mtimeMs.value, opts.mtimeToleranceMs);
    }
  }

  /**
    What each confidence is earned by, over every pair: `Certain` about two files is earned by
    two different known sizes or by the hash; `Probable` comes exactly from two known dates; two
    links are certain exactly when both targets are known; and a newer side is named exactly when
    the date decided, truthfully.
   */
  lemma ConfidenceIsEarned(left: Entry, right: Entry, opts: CompareOptions, facts: Prefetched)
    ensures var d := Decide(left, right, opts, facts);
            && (left.kind == File && right.kind == File ==>
                  (d.confidence == Certain <==>
                     || (d.criterion == Size && d.verdict == Different)
                     || (d.criterion == Hash && facts.hash != NotRun)))
            && (d.criterion == Size && d.verdict == Different ==>
                  left.size.Some? && right.size.Some? && left.size.value != right.size.value)
            && (d.criterion == Mtime ==> d.confidence != Certain)
            && (d.confidence == Probable <==> d.criterion == Mtime && left.mtimeMs.Some? && right.mtimeMs.Some?)
            && (left.kind != File || right.kind != File ==>
                  (d.confidence == Certain <==>
                     || left.kind != right.kind
                     || left.kind == Dir
                     || (left.kind == Symlink && facts.leftTarget.Some? && facts.rightTarget.Some?)))
            && d.confidence in {Certain, Probable, Unknown}
            && (d.newer.Some? <==> d.criterion == Mtime && d.verdict == Different)
            && (d.newer == Some(Left) ==> left.mtimeMs.value > right.mtimeMs.value + opts.mtimeToleranceMs)
            && (d.newer == Some(Right) ==> right.mtimeMs.value > left.mtimeMs.value + opts.mtimeToleranceMs)
  {
    if left.mtimeMs.Some? && right.mtimeMs.Some? {
      MtimeTestIsExact(left.mtimeMs.value, right.mtimeMs.value, opts.mtimeToleranceMs);
    }
  }

  /** Two sizes the options ask about, known and different. */
  predicate SizesDiffer(l: Entry, r: Entry, opts: CompareOptions) {
    opts.criteria.size && l.size.Some? && r.size.Some? && l.size.value != r.size.value
  }

  /** Two dates further apart than the tolerance, over the integers, that get to be compared. */
  predicate DatesDiffer(l: Entry, r: Entry, opts: CompareOptions) {
    && opts.criteria.mtime && l.mtimeMs.Some? && r.mtimeMs.Some?
    && (l.mtimeMs.value - r.mtimeMs.value > opts.mtimeToleranceMs ||
        r.mtimeMs.value - l.mtimeMs.value > opts.mtimeToleranceMs)
    && (opts.criteria.size ==> l.size.Some? && l.size == r.size)
  }

  /**
    Which verdict, over every pair: a type mismatch exactly for two kinds; two files differ
    exactly by size, else by date, else by hash, and a hash is asked for exactly when neither
    told them apart; two links differ exactly by two known targets; nothing else differs.
   */
  lemma VerdictIsExact(l: Entry, r: Entry, opts: CompareOptions, facts: Prefetched)
    ensures var d := Decide(l, r, opts, facts);
            var cheaply := SizesDiffer(l, r, opts) || DatesDiffer(l, r, opts);
            && d.verdict in {Same, Different, TypeMismatch}
            && (d.verdict == TypeMismatch <==> l.kind != r.kind)
            && (l.kind == File && r.kind == File ==>
                  && (d.verdict == Different <==> cheaply || (opts.criteria.hash && facts.hash == Differ))
                  && (d.criterion == Hash <==> opts.criteria.hash && !cheaply && facts.hash != NotRun))
            && (d.needsHash <==>
                  l.kind == File && r.kind == File && opts.criteria.hash && !cheaply && facts.hash == NotRun)
            && (l.kind == r.kind && l.kind != File ==>
                  (d.verdict == Different <==>
                     l.kind == Symlink && facts.leftTarget.Some? && facts.rightTarget.Some? &&
                     facts.leftTarget != facts.rightTarget))
  {
    if l.mtimeMs.Some? && r.mtimeMs.Some? {
      MtimeTestIsExact(l.mtimeMs.value, r.mtimeMs.value, opts.mtimeToleranceMs);
    }
  }
}
