/**
  The row of one pair of entries, first as a value (`PairRow`) and then as the methods that
  compute it under the token: missing sizes and dates are statted on demand, `Decide` is asked,
  and if it wants a hash both files are read.
 */
module Pair {
  import opened Proto
  import opened Vfs
  import opened Cascade
  import Hash
  import Key

  /**
    Everything a comparison is a function of, besides the two roots and the token. `cap` is
    the ceiling on one directory's listing, 200,000 entries in the engine; everything here
    holds for any.
   */
  datatype Env = Env(
    enc: Key.Encoding,
    digest: Bytes -> Bytes,
    left: Provider,
    right: Provider,
    opts: CompareOptions,
    sides: Key.Sides,
    excluded: seq<VPath>,
    cap: nat)
  {
    /** The same comparison the other way round, the named side swapped with the trees. */
    function Swap(): Env {
      this.(left := right, right := left, sides := sides.Swap(),
            opts := opts.(descendOrphans := FlipOption(opts.descendOrphans)))
    }
  }

  /** What a row will say; `RowOf` adds the id. */
  datatype PendingRow =
    | Judged(decision: Decision, left: Option<Entry>, right: Option<Entry>)
    | Flagged(left: Option<Entry>, right: Option<Entry>, verdict: Verdict, criterion: Criterion,
              reason: Reason, side: Side)

  function RowOf(enc: Key.Encoding, p: PendingRow, id: nat): CompareRow {
    match p
    case Judged(d, left, right) => IntoRow(enc, d, id, left, right)
    case Flagged(left, right, verdict, criterion, reason, side) =>
      CompareRow(id, left, right, verdict, criterion, Unknown, None, Some(reason), Some(side),
                 PairedUnder(enc, left, right))
  }

  // ----- hydration, as values -----

  /** An entry under hydration, and whether a `stat` has been spent on it. */
  datatype Known = Known(entry: Entry, asked: bool)

  /** The listed entry with the statted size and date, whether or not it had its own. */
  function Filled(listed: Entry, statted: Entry): Entry {
    listed.(size := statted.size, mtimeMs := statted.mtimeMs)
  }

  predicate Lacks(e: Entry, rung: Criterion) {
    match rung
    case Size => e.size.None?
    case Mtime => e.mtimeMs.None?
    case _ => false
  }

  /** The rung needs a field this side lacks and has not asked for yet. */
  predicate MustAsk(k: Known, rung: Criterion) {
    Lacks(k.entry, rung) && !k.asked
  }

  /** One side after the rung asked it; `None` if the `stat` failed. */
  function Asked(p: Provider, k: Known, rung: Criterion): Option<Known> {
    if !MustAsk(k, rung) then Some(k)
    else
      match p.stat(k.entry.path)
      case None => None
      case Some(s) => Some(Known(Filled(k.entry, s), true))
  }

  datatype Hydration =
    | Ready(l: Known, r: Known)
    | Failed(left: Entry, right: Entry, side: Side, rung: Criterion)

  /** One rung over both sides, left first; a failure on the left leaves the right unasked. */
  function AskBoth(env: Env, rung: Criterion, l: Known, r: Known): Hydration {
    match Asked(env.left, l, rung)
    case None => Failed(l.entry, r.entry, Left, rung)
    case Some(l1) =>
      match Asked(env.right, r, rung)
      case None => Failed(l1.entry, r.entry, Right, rung)
      case Some(r1) => Ready(l1, r1)
  }

  predicate SizesAgree(l: Entry, r: Entry) {
    l.size.Some? && l.size == r.size
  }

  predicate BothFiles(l: Entry, r: Entry) {
    l.kind == File && r.kind == File
  }

  function HydrateMtime(env: Env, l: Known, r: Known): Hydration {
    if env.opts.criteria.mtime then AskBoth(env, Mtime, l, r) else Ready(l, r)
  }

  function Hydrate(env: Env, l: Known, r: Known): Hydration {
    if !BothFiles(l.entry, r.entry) then Ready(l, r)
    else if !env.opts.criteria.size then HydrateMtime(env, l, r)
    else
      match AskBoth(env, Size, l, r)
      case Ready(l1, r1) =>
        if SizesAgree(l1.entry, r1.entry) then HydrateMtime(env, l1, r1) else Ready(l1, r1)
      case failed => failed
  }

  // ----- the verdict, as values -----

  datatype PairVerdict = Decided(decision: Decision) | Unread(side: Side)

  function LinkFacts(env: Env, l: Entry, r: Entry): Prefetched {
    if l.kind == Symlink && r.kind == Symlink then
      Prefetched(env.left.readLink(l.path), env.right.readLink(r.path), NotRun)
    else Prefetched(None, None, NotRun)
  }

  function HashPair(env: Env, l: Entry, r: Entry): PairVerdict {
    match Hash.Content(env.left.read(l.path))
    case None => Unread(Left)
    case Some(a) =>
      match Hash.Content(env.right.read(r.path))
      case None => Unread(Right)
      case Some(b) =>
        var outcome := if env.digest(a) == env.digest(b) then HashOutcome.Equal else HashOutcome.Differ;
        Decided(Decide(l, r, env.opts, LinkFacts(env, l, r).(hash := outcome)))
  }

  function VerdictFor(env: Env, l: Entry, r: Entry): PairVerdict {
    var d := Decide(l, r, env.opts, LinkFacts(env, l, r));
    if d.needsHash then HashPair(env, l, r) else Decided(d)
  }

  function RowFor(env: Env, l: Entry, r: Entry): PendingRow {
    match VerdictFor(env, l, r)
    case Decided(d) => Judged(d, Some(l), Some(r))
    case Unread(side) => Flagged(Some(l), Some(r), Error, Criterion.Hash, ReadFailed, side)
  }

  /** The row of one pair when nothing cancels it: the reference `PairOutcome` is proved against. */
  function PairRow(env: Env, l: Entry, r: Entry): PendingRow {
    match Hydrate(env, Known(l, false), Known(r, false))
    case Ready(l1, r1) => RowFor(env, l1.entry, r1.entry)
    case Failed(l1, r1, side, rung) => Flagged(Some(l1), Some(r1), Error, rung, Unreadable, side)
  }

  // ----- the same, step by step under the token -----

  /** The hydration state of one entry: its fields so far, and whether its `stat` is spent. */
  class Fresh {
    var entry: Entry
    var asked: bool
    ghost var stats: nat // how many `stat` calls were spent on this side

    ghost predicate Valid()
      reads this
    {
      stats == if asked then 1 else 0
    }

    ghost function View(): Known
      reads this
    {
      Known(entry, asked)
    }

    constructor (e: Entry)
      ensures Valid() && View() == Known(e, false)
    {
      entry, asked, stats := e, false, 0;
    }

    method HydrateNow(p: Provider, token: Token) returns (answer: Answer)
      requires Valid()
      modifies this, token
      ensures Valid()
      ensures old(token.Fired()) ==> token.Fired()
      ensures answer == AskCancelled ==> token.Fired()
      ensures answer == Ok ==>
                if old(asked) then View() == old(View())
                else p.stat(old(entry).path).Some? &&
                     View() == Known(Filled(old(entry), p.stat(old(entry).path).value), true)
      ensures answer == StatFailed ==>
                !old(asked) && p.stat(old(entry).path).None? && entry == old(entry)
    {
      if asked {
        return Ok;
      }
      var cancelled := token.IsCancelled();
      if cancelled {
        return AskCancelled;
      }
      asked := true;
      stats := stats + 1;
      match p.stat(entry.path) {
        case None => answer := StatFailed;
        case Some(s) =>
          entry := entry.(size := s.size, mtimeMs := s.mtimeMs);
          answer := Ok;
      }
    }
  }

  datatype Answer = Ok | StatFailed | AskCancelled

  datatype RungResult = Complete | Broke(side: Side, rung: Criterion) | RungCancelled

  method AskBothNow(env: Env, rung: Criterion, l: Fresh, r: Fresh, token: Token) returns (res: RungResult)
    requires l != r && l.Valid() && r.Valid()
    modifies l, r, token
    ensures l.Valid() && r.Valid()
    ensures old(token.Fired()) ==> token.Fired()
    ensures res == RungCancelled ==> token.Fired()
    ensures res == Complete ==> AskBoth(env, rung, old(l.View()), old(r.View())) == Ready(l.View(), r.View())
    ensures res.Broke? ==>
              AskBoth(env, rung, old(l.View()), old(r.View())) == Failed(l.entry, r.entry, res.side, res.rung)
  {
    if Lacks(l.entry, rung) {
      var a := l.HydrateNow(env.left, token);
      match a {
        case AskCancelled => return RungCancelled;
        case StatFailed => return Broke(Left, rung);
        case Ok =>
      }
    }
    if Lacks(r.entry, rung) {
      var a := r.HydrateNow(env.right, token);
      match a {
        case AskCancelled => return RungCancelled;
        case StatFailed => return Broke(Right, rung);
        case Ok =>
      }
    }
    res := Complete;
  }

  /**
    Both rungs in order. At most one `stat` is spent per side (`Fresh.Valid`), and none at all
    unless both entries are files.
   */
  method HydrateRungs(env: Env, l: Fresh, r: Fresh, token: Token) returns (res: RungResult)
    requires l != r && l.Valid() && r.Valid()
    modifies l, r, token
    ensures l.Valid() && r.Valid()
    ensures old(token.Fired()) ==> token.Fired()
    ensures res == RungCancelled ==> token.Fired()
    ensures res == Complete ==> Hydrate(env, old(l.View()), old(r.View())) == Ready(l.View(), r.View())
    ensures res.Broke? ==>
              Hydrate(env, old(l.View()), old(r.View())) == Failed(l.entry, r.entry, res.side, res.rung)
    ensures !BothFiles(old(l.entry), old(r.entry)) ==> l.stats == old(l.stats) && r.stats == old(r.stats)
  {
    if BothFiles(l.entry, r.entry) {
      if env.opts.criteria.size {
        res := AskBothNow(env, Size, l, r, token);
        if res != Complete || !SizesAgree(l.entry, r.entry) {
          return;
        }
      }
      if env.opts.criteria.mtime {
        res := AskBothNow(env, Mtime, l, r, token);
        return;
      }
    }
    res := Complete;
  }

  datatype HashStep = Hashed(v: PairVerdict) | StepCancelled

  method HashPairNow(env: Env, l: Entry, r: Entry, token: Token) returns (res: HashStep)
    modifies token
    ensures old(token.Fired()) ==> token.Fired()
    ensures res == StepCancelled ==> token.Fired()
    ensures res.Hashed? ==> res.v == HashPair(env, l, r)
  {
    var ld := Hash.Sha256Of(env.digest, env.left, l.path, token);
    match ld {
      case HashCancelled => return StepCancelled;
      case ReadBroke => return Hashed(Unread(Left));
      case Digest(a) =>
        var rd := Hash.Sha256Of(env.digest, env.right, r.path, token);
        match rd {
          case HashCancelled => return StepCancelled;
          case ReadBroke => return Hashed(Unread(Right));
          case Digest(b) =>
            var outcome := if a == b then HashOutcome.Equal else HashOutcome.Differ;
            return Hashed(Decided(Decide(l, r, env.opts, LinkFacts(env, l, r).(hash := outcome))));
        }
    }
  }

  /** One pair's row, or nothing: and nothing only because the token fired. */
  method PairOutcome(env: Env, left: Entry, right: Entry, token: Token) returns (row: Option<PendingRow>)
    modifies token
    ensures old(token.Fired()) ==> token.Fired()
    ensures row.None? ==> token.Fired()
    ensures row.Some? ==> row.value == PairRow(env, left, right)
  {
    var l := new Fresh(left);
    var r := new Fresh(right);
    var res := HydrateRungs(env, l, r, token);
    match res {
      case RungCancelled => return None;
      case Broke(side, rung) =>
        return Some(Flagged(Some(l.entry), Some(r.entry), Error, rung, Unreadable, side));
      case Complete =>
        var d := Decide(l.entry, r.entry, env.opts, LinkFacts(env, l.entry, r.entry));
        if !d.needsHash {
          return Some(Judged(d, Some(l.entry), Some(r.entry)));
        }
        var h := HashPairNow(env, l.entry, r.entry, token);
        match h {
          case StepCancelled => return None;
          case Hashed(Unread(side)) =>
            return Some(Flagged(Some(l.entry), Some(r.entry), Error, Criterion.Hash, ReadFailed, side));
          case Hashed(Decided(decided)) =>
            return Some(Judged(decided, Some(l.entry), Some(r.entry)));
        }
    }
  }
}
