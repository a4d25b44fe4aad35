/** What polling a bounded buffer can and cannot tell, against the unbounded history it forgets. */
module LogRing {

  datatype Tail<+T> = Tail(lines: seq<T>, next: nat, lost: nat)

  function Min(a: nat, b: nat): nat {
    if a < b then a else b
  }

  function Max(a: nat, b: nat): nat {
    if a < b then b else a
  }

  /** How much of a history of `pushed` lines no longer fits in `cap`. */
  function Base(pushed: nat, cap: nat): nat {
    if pushed > cap then pushed - cap else 0
  }

  /** What a client at `cursor` must be told, said of the whole history. */
  function TailOf<T>(history: seq<T>, cap: nat, cursor: nat, max: nat): (t: Tail<T>)
    ensures |t.lines| <= t.next <= |history|
    ensures cursor <= |history| ==> t.next == cursor + t.lost + |t.lines|
    ensures cursor > |history| ==> t == Tail([], |history|, 0)
    ensures t.lines == history[t.next - |t.lines|..t.next]
    ensures |t.lines| <= max && (|t.lines| == max || t.next == |history|)
    ensures cursor <= |history| ==> t.lost == if |history| > cap + cursor then |history| - cap - cursor else 0
  {
    var seen := Min(cursor, |history|);
    var from := Max(seen, Base(|history|, cap));
    var upto := Min(from + max, |history|);
    Tail(history[from..upto], upto, from - seen)
  }

  class LogRing<T> {
    var lines: seq<T>
    const cap: nat
    var dropped: nat
    var pushed: nat
    ghost var history: seq<T>

    ghost predicate Valid()
      reads this
    {
      && cap >= 1
      && pushed == |history|
      && dropped == Base(pushed, cap)
      && lines == history[dropped..]
    }

    constructor (cap: nat)
      ensures Valid() && history == []
      ensures this.cap == Max(cap, 1)
    {
      this.cap := if cap < 1 then 1 else cap;
      lines, dropped, pushed, history := [], 0, 0, [];
    }

    /** The ring's length is always what was pushed minus what was dropped, and never over the cap. */
    lemma Length()
      requires Valid()
      ensures |lines| == pushed - dropped == Min(pushed, cap)
      ensures lines == history[|history| - |lines|..]
    {
    }

    method Push(line: T)
      requires Valid()
      modifies this
      ensures Valid()
      ensures history == old(history) + [line]
      ensures pushed == old(pushed) + 1
      ensures dropped == old(dropped) + (if old(|lines|) == cap then 1 else 0)
    {
      if |lines| == cap {
        lines := lines[1..];
        dropped := dropped + 1;
      }
      lines := lines + [line];
      pushed := pushed + 1;
      history := history + [line];
    }

    method Since(cursor: nat, max: nat) returns (tail: Tail<T>)
      requires Valid()
      ensures tail == TailOf(history, cap, cursor, max)
    {
      var base := pushed - |lines|;
      var seen := if cursor < pushed then cursor else pushed;
      var lost := if base > seen then base - seen else 0;
      var start := (if seen > base then seen else base) - base;
      var rest := lines[start..];
      var taken := if max < |rest| then rest[..max] else rest;
      tail := Tail(taken, base + start + |taken|, lost);
    }

    method Snapshot() returns (copy: seq<T>)
      requires Valid()
      ensures copy == history[Base(|history|, cap)..]
    {
      copy := lines;
    }
  }

  // ----- every interleaving of pushes and polls -----

  datatype Op<+T> = Push(line: T) | Poll(max: nat)

  /** A client's session so far: the history, its cursor, and where each delivered line came from. */
  datatype Session<+T> = Session(history: seq<T>, cursor: nat, at: seq<nat>, delivered: seq<T>, lost: nat)

  function Range(from: nat, count: nat): (r: seq<nat>)
    ensures |r| == count
    ensures forall i :: 0 <= i < count ==> r[i] == from + i
  {
    seq(count, i => from + i)
  }

  function Do<T>(cap: nat, s: Session<T>, op: Op<T>): Session<T> {
    match op
    case Push(line) => s.(history := s.history + [line])
    case Poll(max) =>
      var t := TailOf(s.history, cap, s.cursor, max);
      Session(s.history, t.next, s.at + Range(t.next - |t.lines|, |t.lines|),
              s.delivered + t.lines, s.lost + t.lost)
  }

  function Run<T>(cap: nat, s: Session<T>, ops: seq<Op<T>>): Session<T> {
    if ops == [] then s
    else Do(cap, Run(cap, s, ops[..|ops| - 1]), ops[|ops| - 1])
  }

  function Opened<T>(history: seq<T>, cursor: nat): Session<T> {
    Session(history, cursor, [], [], 0)
  }

  /** What is true of a session opened at `start`, whatever happened since. */
  ghost predicate Faithful<T>(s: Session<T>, start: nat) {
    && start <= s.cursor <= |s.history|
    && |s.at| == |s.delivered|
    && (forall i :: 0 <= i < |s.at| ==>
          start <= s.at[i] < s.cursor && s.delivered[i] == s.history[s.at[i]])
    && (forall i, j :: 0 <= i < j < |s.at| ==> s.at[i] < s.at[j])
    && |s.delivered| + s.lost == s.cursor - start
  }

  lemma PushKeepsFaithful<T>(cap: nat, s: Session<T>, start: nat, line: T)
    requires Faithful(s, start)
    ensures Faithful(Do(cap, s, Op.Push(line)), start)
  {
  }

  lemma PollKeepsFaithful<T>(cap: nat, s: Session<T>, start: nat, max: nat)
    requires Faithful(s, start)
    ensures Faithful(Do(cap, s, Poll(max)), start)
  {
    var t := TailOf(s.history, cap, s.cursor, max);
    var from := t.next - |t.lines|;
    var s' := Do(cap, s, Poll(max));
    assert t.lines == s.history[from..t.next];
    forall i | 0 <= i < |s'.at|
      ensures start <= s'.at[i] < s'.cursor && s'.delivered[i] == s'.history[s'.at[i]]
    {
      if i >= |s.at| {
        assert s'.delivered[i] == t.lines[i - |s.at|];
      }
    }
  }

  /**
    The ring refines its history: for every interleaving of pushes and polls, from a cursor
    not beyond `pushed` and always continuing at `next`, the delivered lines are an in-order,
    duplicate-free part of the full history, and delivered plus lost is exactly how far the
    cursor advanced.
   */
  lemma {:induction false} RingRefinesHistory<T>(cap: nat, history: seq<T>, start: nat, ops: seq<Op<T>>)
    requires start <= |history|
    ensures Faithful(Run(cap, Opened(history, start), ops), start)
    ensures history <= Run(cap, Opened(history, start), ops).history
  {
    if ops != [] {
      var n := |ops| - 1;
      RingRefinesHistory(cap, history, start, ops[..n]);
      var s := Run(cap, Opened(history, start), ops[..n]);
      match ops[n]
      case Push(line) => PushKeepsFaithful(cap, s, start, line);
      case Poll(max) => PollKeepsFaithful(cap, s, start, max);
    }
  }

  /** A line is lost only if it had left the ring by the poll that counts it: a client that keeps up loses none. */
  lemma LostOnlyIfDropped<T>(cap: nat, s: Session<T>, max: nat)
    requires s.cursor <= |s.history|
    ensures Do(cap, s, Poll(max)).lost > s.lost <==> s.cursor < Base(|s.history|, cap)
  {
  }

  /** A session over the real ring is the session over its history. */
  method Drive<T>(ring: LogRing<T>, cursor: nat, ops: seq<Op<T>>) returns (next: nat, delivered: seq<T>, lost: nat)
    requires ring.Valid()
    modifies ring
    ensures ring.Valid()
    ensures var s := Run(ring.cap, Opened(old(ring.history), cursor), ops);
            next == s.cursor && delivered == s.delivered && lost == s.lost && ring.history == s.history
  {
    ghost var s0 := Opened(ring.history, cursor);
    next, delivered, lost := cursor, [], 0;
    for i := 0 to |ops|
      invariant ring.Valid()
      invariant var s := Run(ring.cap, s0, ops[..i]);
                next == s.cursor && delivered == s.delivered && lost == s.lost && ring.history == s.history
    {
      assert ops[..i + 1][..i] == ops[..i];
      match ops[i] {
        case Push(line) => ring.Push(line);
        case Poll(max) =>
          var tail := ring.Since(next, max);
          next, delivered, lost := tail.next, delivered + tail.lines, lost + tail.lost;
      }
    }
    assert ops[..|ops|] == ops;
  }

  /**
    A poll brings the client up to date if and only if it asks for at least the lines that
    are left for it: those after its cursor that the ring still holds.
   */
  lemma CatchesUp<T>(cap: nat, s: Session<T>, max: nat)
    requires s.cursor <= |s.history|
    ensures Do(cap, s, Poll(max)).cursor == |s.history| <==> max >= Min(|s.history| - s.cursor, cap)
  {
  }

  /** A client that polls after at most `cap` pushes, asking for enough, is delivered exactly what was pushed since. */
  lemma KeepsUp<T>(cap: nat, s: Session<T>, start: nat, max: nat)
    requires Faithful(s, start) && |s.history| - s.cursor <= cap && |s.history| - s.cursor <= max
    ensures Do(cap, s, Poll(max)).delivered == s.delivered + s.history[s.cursor..]
    ensures Do(cap, s, Poll(max)).lost == s.lost
  {
  }
}
