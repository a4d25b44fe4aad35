/**
  The vocabulary the comparison engine shares with the wire: paths, entries, and the
  rows a comparison publishes. Names are raw bytes throughout; nothing here is text.
 */
module Proto {

  datatype Option<+T> = None | Some(value: T)

  newtype Byte = x: int | 0 <= x < 256
  type Bytes = seq<Byte>

  const U32_MAX: int := 0xFFFF_FFFF
  const I64_MAX: int := 0x7FFF_FFFF_FFFF_FFFF
  const I64_MIN: int := -0x8000_0000_0000_0000

  type U32 = x: int | 0 <= x <= U32_MAX
  type I64 = x: int | I64_MIN <= x <= I64_MAX witness 0

  /** `u32::saturating_add(1)`. */
  function SaturatingSucc(x: U32): U32 {
    if x == U32_MAX then x else x + 1
  }

  /** `i64::saturating_sub`. */
  function SaturatingSub(a: I64, b: I64): I64 {
    if a - b > I64_MAX then I64_MAX
    else if a - b < I64_MIN then I64_MIN
    else a - b
  }

  function Abs(x: int): nat {
    if x < 0 then -x else x
  }

  datatype VPath = VPath(scheme: string, authority: Option<string>, segments: seq<Bytes>)

  /** Same scheme and authority, and the segments of `root` are a prefix, proper or not, of those of `path`. */
  predicate IsDescendant(root: VPath, path: VPath) {
    && root.scheme == path.scheme
    && root.authority == path.authority
    && root.segments <= path.segments
  }

  datatype EntryKind = File | Dir | Symlink | Other

  datatype Entry = Entry(path: VPath, kind: EntryKind, size: Option<nat>, mtimeMs: Option<I64>,
                         attrs: map<string, string>)

  /** The last segment of the path, or no bytes if it has none. */
  function PairName(e: Entry): Bytes {
    if e.path.segments == [] then [] else e.path.segments[|e.path.segments| - 1]
  }

  /** The entry a root frame is made of. */
  function SyntheticDir(path: VPath): Entry {
    Entry(path, Dir, None, None, map[])
  }

  datatype Side = Left | Right | UnknownSide

  datatype Verdict =
    | Same
    | Different
    | OnlyLeft
    | OnlyRight
    | TypeMismatch
    | Ambiguous
    | Error
    | UnknownVerdict

  datatype Criterion = Presence | Kind | LinkTarget | Size | Mtime | Hash | UnknownCriterion

  datatype Confidence = Certain | Probable | Unknown | Unrecognised

  datatype Reason = CaseFold | Normalization | Unreadable | DirTooLarge | ReadFailed | UnknownReason

  datatype PairTransform = FoldedCase | Normalized | FullFolded | NormalizedSingleton

  datatype Criteria = Criteria(size: bool, mtime: bool, hash: bool)

  datatype CompareOptions = CompareOptions(
    criteria: Criteria,
    maxDepth: Option<U32>,
    mtimeToleranceMs: U32,
    followSymlinks: bool,
    descendOrphans: Option<Side>)

  datatype CompareRow = CompareRow(
    id: nat,
    left: Option<Entry>,
    right: Option<Entry>,
    verdict: Verdict,
    criterion: Criterion,
    confidence: Confidence,
    newer: Option<Side>,
    reason: Option<Reason>,
    side: Option<Side>,
    pairedUnder: Option<PairTransform>)

  /** The wire's rule on which sides a verdict may leave empty. */
  predicate SidesAreConsistent(row: CompareRow) {
    match row.verdict
    case OnlyLeft => row.left.Some? && row.right.None?
    case OnlyRight => row.right.Some? && row.left.None?
    case Same | Different | TypeMismatch => row.left.Some? && row.right.Some?
    case Ambiguous | Error | UnknownVerdict => true
  }

  /** The wire's rule on which verdicts carry a reason. */
  predicate ReasonIsConsistent(row: CompareRow) {
    match row.verdict
    case Ambiguous | Error => row.reason.Some?
    case UnknownVerdict => true
    case _ => row.reason.None?
  }

  // ----- the other side's point of view -----

  function Flip(side: Side): Side {
    match side
    case Left => Right
    case Right => Left
    case UnknownSide => UnknownSide
  }

  function FlipOption(side: Option<Side>): Option<Side> {
    match side
    case None => None
    case Some(s) => Some(Flip(s))
  }

  function MirrorVerdict(v: Verdict): Verdict {
    match v
    case OnlyLeft => OnlyRight
    case OnlyRight => OnlyLeft
    case _ => v
  }

  /** Swaps everything in a row that names a side; id, criterion, confidence, reason and mark stay. */
  function MirrorRow(row: CompareRow): CompareRow {
    row.(left := row.right,
         right := row.left,
         verdict := MirrorVerdict(row.verdict),
         newer := FlipOption(row.newer),
         side := FlipOption(row.side))
  }
}
