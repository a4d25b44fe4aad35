/**
  The engine as an object with mutable stack and queue. Its invariant ties both to the pure
  description of the run (`RowsAfter`, `Agenda`) after as many visits as it has made.
 */
module Walk {
  import opened Proto
  import opened Vfs
  import opened Pair
  import opened Listing
  import opened Key
  import opened Visit
  import opened Traversal
  import opened Bounds
  import opened Join

  datatype StreamItem = Row(row: CompareRow) | Cancelled

  /** Rows with their ids: `from + 1`, `from + 2`, ... in emission order. */
  function Numbered(enc: Encoding, rows: seq<PendingRow>, from: nat): (r: seq<CompareRow>)
    ensures |r| == |rows|
    ensures forall i :: 0 <= i < |rows| ==> r[i] == RowOf(enc, rows[i], from + i + 1)
  {
    seq(|rows|, i requires 0 <= i < |rows| => RowOf(enc, rows[i], from + i + 1))
  }

  lemma NumberedAppend(enc: Encoding, a: seq<PendingRow>, b: seq<PendingRow>, from: nat)
    ensures Numbered(enc, a + b, from) == Numbered(enc, a, from) + Numbered(enc, b, from + |a|)
  {
  }

  function Reversed<T>(s: seq<T>): (r: seq<T>)
    ensures |r| == |s|
    ensures forall i :: 0 <= i < |s| ==> r[i] == s[|s| - 1 - i]
  {
    seq(|s|, i requires 0 <= i < |s| => s[|s| - 1 - i])
  }

  lemma ReversedPush<T>(stack: seq<T>, pushed: seq<T>)
    ensures Reversed(stack + Reversed(pushed)) == pushed + Reversed(stack)
  {
  }

  lemma ReversedPop<T>(stack: seq<T>)
    requires stack != []
    ensures Reversed(stack)[0] == stack[|stack| - 1]
    ensures Reversed(stack)[1..] == Reversed(stack[..|stack| - 1])
  {
  }

  function RootFrame(left: VPath, right: VPath): Frame {
    Frame(Some(SyntheticDir(left)), Some(SyntheticDir(right)), 0)
  }

  class Walk {
    const env: Env
    const root: Frame
    const token: Token
    var stack: seq<Frame> // top last
    var pending: seq<CompareRow>
    var nextId: nat
    var finished: bool

    ghost var visits: nat              // directories visited to the end
    ghost var delivered: seq<CompareRow>
    ghost var cut: bool                // `Cancelled` has been delivered

    /** All rows of the visits made so far, numbered from 1. */
    ghost function Rows(): seq<CompareRow>
      reads this
    {
      Numbered(env.enc, RowsAfter(Trees(env), visits, [root]), 0)
    }

    /** Stack and queue are exactly where the visits made so far leave them. */
    ghost predicate OnCourse()
      reads this
    {
      && delivered + pending == Rows()
      && nextId == |delivered| + |pending|
      && Reversed(stack) == Agenda(Trees(env), visits, [root])
    }

    /**
      The token cut the last visit short: its frame is off the stack, the rest is still there,
      and what it queued, which nobody will see, are the first rows of that visit.
     */
    ghost predicate CutShort()
      reads this, token
    {
      && token.Fired()
      && Agenda(Trees(env), visits, [root]) != []
      && Reversed(stack) == Agenda(Trees(env), visits, [root])[1..]
      && delivered + pending <= Numbered(env.enc, RowsAfter(Trees(env), visits + 1, [root]), 0)
    }

    ghost predicate Valid()
      reads this, token
    {
      && delivered <= Rows()
      && (visits > 0 ==> Agenda(Trees(env), visits - 1, [root]) != [])
      && (!finished ==> OnCourse() || CutShort())
      && (finished ==> pending == [] && stack == [])
      && (finished && !cut ==> delivered == Rows() && Agenda(Trees(env), visits, [root]) == [])
      && (cut ==> finished && token.Fired())
    }

    constructor (env: Env, root: Frame, token: Token)
      ensures Valid() && !finished && !cut
      ensures this.env == env && this.root == root && this.token == token
      ensures delivered == [] && visits == 0
    {
      this.env, this.root, this.token := env, root, token;
      stack, pending, nextId, finished := [root], [], 0, false;
      visits, delivered, cut := 0, [], false;
      new;
      assert Reversed([root]) == [root];
    }

    /** Publishes one row under the next id. */
    method PushRow(row: PendingRow)
      modifies this`pending, this`nextId
      ensures nextId == old(nextId) + 1
      ensures pending == old(pending) + [RowOf(env.enc, row, nextId)]
    {
      nextId := nextId + 1;
      pending := pending + [RowOf(env.enc, row, nextId)];
    }

    method PushRows(rows: seq<PendingRow>)
      modifies this`pending, this`nextId
      ensures nextId == old(nextId) + |rows|
      ensures pending == old(pending) + Numbered(env.enc, rows, old(nextId))
    {
      hide RowOf;
      for i := 0 to |rows|
        invariant nextId == old(nextId) + i
        invariant pending == old(pending) + Numbered(env.enc, rows[..i], old(nextId))
      {
        NumberedAppend(env.enc, rows[..i], [rows[i]], old(nextId));
        assert rows[..i + 1] == rows[..i] + [rows[i]];
        PushRow(rows[i]);
      }
      assert rows[..|rows|] == rows;
    }

    /**
      Emits the steps in order, taking each pair's row out of its slot. A slot taken is empty
      from then on; none is met empty.
     */
    method Emit(ghost c: Collided, ghost items: seq<MergeItem>, joined: Joined, slots: seq<Option<PendingRow>>)
      requires |joined.steps| == |items| && |slots| == |joined.pairs|
      requires forall n :: 0 <= n < |items| ==> StandsFor(env, c, joined.pairs, joined.steps[n], items[n])
      requires NamedOnce(joined.steps)
      requires forall i :: 0 <= i < |slots| ==>
                 slots[i] == Some(RowAt(env, joined.pairs, i))
      modifies this`pending, this`nextId
      ensures nextId == old(nextId) + |items|
      ensures pending == old(pending) + Numbered(env.enc, ItemRows(env, c, items), old(nextId))
    {
      hide RowOf, PairRow, SideRow;
      ghost var rows := ItemRows(env, c, items);
      var resolved := slots;
      for n := 0 to |joined.steps|
        invariant nextId == old(nextId) + n
        invariant pending == old(pending) + Numbered(env.enc, rows[..n], old(nextId))
        invariant |resolved| == |slots|
        invariant forall m :: n <= m < |joined.steps| && joined.steps[m].Equal? ==>
                    resolved[joined.steps[m].i] == slots[joined.steps[m].i]
      {
        NumberedAppend(env.enc, rows[..n], [rows[n]], old(nextId));
        assert rows[..n + 1] == rows[..n] + [rows[n]];
        assert StandsFor(env, c, joined.pairs, joined.steps[n], items[n]);
        match joined.steps[n] {
          case ReadyRow(row) => PushRow(row);
          case Equal(i) =>
            assert resolved[i].Some?;
            var row := resolved[i].value;
            resolved := resolved[i := None];
            PushRow(row);
        }
      }
      assert rows[..|joined.steps|] == rows;
    }

    /**
      `VisitRows` and `VisitFrames`, carried out. A visit made to the end adds exactly the visit's rows to
      the queue and its frames to the stack, in reverse. One cut short, which only the token
      can do, leaves the stack alone.
     */
    method Visit(frame: Frame) returns (ghost done: bool)
      modifies this`pending, this`nextId, this`stack, token
      ensures old(token.Fired()) ==> token.Fired()
      ensures !done ==> token.Fired() && stack == old(stack)
      ensures !done ==> pending <= old(pending) + Numbered(env.enc, VisitRows(env, frame), old(nextId))
      ensures done ==>
                && nextId == old(nextId) + |VisitRows(env, frame)|
                && pending == old(pending) + Numbered(env.enc, VisitRows(env, frame), old(nextId))
                && stack == old(stack) + Reversed(VisitFrames(env, frame))
    {
      hide ListVisible, RowOf, ErrorRows, PairedRows, PairedFrames, SidesFor, Numbered;
      var left := ListVisibleNow(env, env.left, frame.left, token);
      var right := ListVisibleNow(env, env.right, frame.right, token);
      if left == ListCancelled || right == ListCancelled {
        return false;
      }
      if !left.res.Entries? || !right.res.Entries? {
        var errors := ErrorRows(frame.left, left.res, Left) + ErrorRows(frame.right, right.res, Right);
        PushRows(errors);
        assert Reversed(VisitFrames(env, frame)) == [];
        return true;
      }
      done := VisitPaired(frame, left.res.entries, right.res.entries);
    }

    /** The rest of the visit, once both listings are in. */
    method VisitPaired(frame: Frame, lefts: seq<Entry>, rights: seq<Entry>) returns (ghost done: bool)
      modifies this`pending, this`nextId, this`stack, token
      ensures old(token.Fired()) ==> token.Fired()
      ensures !done ==> token.Fired() && stack == old(stack)
      ensures var p := Paired(env.enc, SidesFor(env, frame), lefts, rights);
              !done ==> pending <= old(pending) + Numbered(env.enc, PairedRows(env, p), old(nextId))
      ensures var p := Paired(env.enc, SidesFor(env, frame), lefts, rights);
              done ==>
                && nextId == old(nextId) + |PairedRows(env, p)|
                && pending == old(pending) + Numbered(env.enc, PairedRows(env, p), old(nextId))
                && stack == old(stack) + Reversed(PairedFrames(env, p, frame.depth))
    {
      hide Indexed, Unique, Collisions, CollidedAmong, Merge, RowOf, PairRow, SideRow, AllFrames, SidesFor;
      ghost var p := Paired(env.enc, SidesFor(env, frame), lefts, rights);
      var sides := SidesFor(env, frame);
      var leftIndex := IndexSide(env.enc, lefts, sides);
      var rightIndex := IndexSide(env.enc, rights, sides);
      var leftCollided := CollidedKeys(env.enc, leftIndex, sides);
      var rightCollided := CollidedKeys(env.enc, rightIndex, sides);
      PushClashes(leftIndex, rightIndex);
      done := JoinAndEmit(leftIndex, rightIndex, Collided(leftCollided, rightCollided), frame.depth);
      NumberedAppend(env.enc, ClashRows(leftIndex, rightIndex), ItemRows(env, p.Clashes(), p.Items()), old(nextId));
    }

    /** One ambiguous row per collided entry, the left's first. */
    method PushClashes(leftIndex: SideIndex, rightIndex: SideIndex)
      requires leftIndex.Valid() && rightIndex.Valid()
      modifies this`pending, this`nextId
      ensures nextId == old(nextId) + |ClashRows(leftIndex, rightIndex)|
      ensures pending == old(pending) + Numbered(env.enc, ClashRows(leftIndex, rightIndex), old(nextId))
    {
      hide RowOf, Collisions;
      var leftClashes := CollisionRows(Collisions(leftIndex), Left);
      var rightClashes := CollisionRows(Collisions(rightIndex), Right);
      PushRows(leftClashes);
      PushRows(rightClashes);
      NumberedAppend(env.enc, leftClashes, rightClashes, old(nextId));
    }

    /** The part of a visit that concerns the pairable entries. */
    method JoinAndEmit(leftIndex: SideIndex, rightIndex: SideIndex, c: Collided, depth: U32)
      returns (ghost done: bool)
      requires leftIndex.Valid() && rightIndex.Valid()
      modifies this`pending, this`nextId, this`stack, token
      ensures old(token.Fired()) ==> token.Fired()
      ensures !done ==> token.Fired() && stack == old(stack) && pending == old(pending)
      ensures var items := Merge(Unique(leftIndex), Unique(rightIndex));
              done ==>
                && nextId == old(nextId) + |items|
                && pending == old(pending) + Numbered(env.enc, ItemRows(env, c, items), old(nextId))
                && stack == old(stack) + Reversed(AllFrames(env.opts, c, depth, items))
    {
      hide Unique, Merge, RowOf, PairRow, SideRow, JoinedOf, AllFrames;
      var joined := MergeJoin(env, leftIndex, rightIndex, c, depth, token);
      if joined.None? {
        return false;
      }
      var slots := HydrateAll(env, joined.value.pairs, token);
      var cancelled := token.IsCancelled();
      if cancelled {
        return false;
      }
      ghost var items := Merge(Unique(leftIndex), Unique(rightIndex));
      JoinedSpec(env, c, depth, items);
      Emit(c, items, joined.value, slots);
      PushFrames(joined.value.descend);
      done := true;
    }

    /** The first of `descend` ends up on top. */
    method PushFrames(descend: seq<Frame>)
      modifies this`stack
      ensures stack == old(stack) + Reversed(descend)
    {
      var i := |descend|;
      while i > 0
        invariant 0 <= i <= |descend|
        invariant stack == old(stack) + Reversed(descend[i..])
      {
        i := i - 1;
        assert descend[i..] == [descend[i]] + descend[i + 1..];
        assert Reversed(descend[i..]) == Reversed(descend[i + 1..]) + [descend[i]];
        stack := stack + [descend[i]];
      }
      assert descend[0..] == descend;
    }

    /**
      The next item of the stream: a row, `Cancelled` once, or the end. A stream that has not
      ended answers `Cancelled` if and only if the token has fired by then, however many rows
      are waiting. It always returns, whatever the providers answer, since a visit that
      descends has rows to deliver.
     */
    method Step() returns (item: Option<StreamItem>)
      requires Valid()
      modifies this, token
      ensures Valid()
      ensures old(token.Fired()) ==> token.Fired()
      ensures old(finished) ==> item == None
      ensures !old(finished) ==> (item == Some(Cancelled) <==> token.Fired())
      ensures match item
              case Some(Row(row)) => delivered == old(delivered) + [row] && !finished && !cut
              case Some(Cancelled) => delivered == old(delivered) && cut && !old(cut)
              case None => delivered == old(delivered) && finished && cut == old(cut)
    {
      hide VisitRows, VisitFrames, Agenda, RowsAfter, RowOf;
      while true
        invariant Valid()
        invariant old(token.Fired()) ==> token.Fired()
        invariant delivered == old(delivered) && finished == old(finished) && cut == old(cut)
        decreases if token.Fired() then 0 else 1, if pending == [] then 1 else 0, |stack|
      {
        var cancelled := token.IsCancelled();
        if cancelled {
          if finished {
            return None;
          }
          finished := true;
          pending := [];
          stack := [];
          cut := true;
          return Some(Cancelled);
        }
        if pending != [] {
          var row := pending[0];
          pending := pending[1..];
          delivered := delivered + [row];
          return Some(Row(row));
        }
        if finished {
          return None;
        }
        if stack == [] {
          finished := true;
          assert delivered + [] == delivered;
          return None;
        }
        VisitTop();
      }
    }

    /** Pops the top of the stack and visits it; either rows, or fewer frames, or the token come of it. */
    method VisitTop()
      requires Valid() && !finished && !token.Fired() && pending == [] && stack != []
      modifies this, token
      ensures Valid() && !finished
      ensures delivered == old(delivered) && cut == old(cut)
      ensures token.Fired() || pending != [] || |stack| < old(|stack|)
    {
      hide VisitRows, VisitFrames, Agenda, RowsAfter, RowOf, Numbered;
      var frame := stack[|stack| - 1];
      ghost var agenda := Reversed(stack);
      ReversedPop(stack);
      stack := stack[..|stack| - 1];
      ghost var rest := stack;
      ghost var done := Visit(frame);
      VisitMade(env, root, visits, agenda, frame);
      if done { // only to keep count
        ReversedPush(rest, VisitFrames(env, frame));
        visits := visits + 1;
      }
    }
  }

  /** A completed visit is one more visit of the recursive description. */
  lemma VisitMade(env: Env, root: Frame, visits: nat, agenda: seq<Frame>, frame: Frame)
    requires agenda == Agenda(Trees(env), visits, [root]) && agenda != [] && agenda[0] == frame
    ensures Agenda(Trees(env), visits + 1, [root]) == VisitFrames(env, frame) + agenda[1..]
    ensures Numbered(env.enc, RowsAfter(Trees(env), visits + 1, [root]), 0)
         == Numbered(env.enc, RowsAfter(Trees(env), visits, [root]), 0)
          + Numbered(env.enc, VisitRows(env, frame), |RowsAfter(Trees(env), visits, [root])|)
    ensures |VisitFrames(env, frame)| <= |VisitRows(env, frame)|
  {
    hide VisitRows, VisitFrames, Agenda, RowsAfter, RowOf;
    OneMoreVisit(Trees(env), visits, [root]);
    NumberedAppend(env.enc, RowsAfter(Trees(env), visits, [root]), VisitRows(env, frame), 0);
    NoFrameWithoutRow(env, frame);
  }

  // ----- whole runs -----

  function RowItems(rows: seq<CompareRow>): (items: seq<StreamItem>)
    ensures |items| == |rows|
    ensures forall i :: 0 <= i < |rows| ==> items[i] == Row(rows[i])
  {
    seq(|rows|, i requires 0 <= i < |rows| => Row(rows[i]))
  }

  /** Either root already falls under an excluded subtree. */
  predicate RootExcluded(env: Env, left: VPath, right: VPath) {
    Excluded(env.excluded, left) || Excluded(env.excluded, right)
  }

  /** The rows of the whole comparison of two finite trees, with their ids. */
  function FullRows(env: Env, fuel: nat, root: Frame): seq<CompareRow> {
    Numbered(env.enc, Preorder(Trees(env), fuel, [root]), 0)
  }

  /** The first `n` rows of the full comparison, then `Cancelled`. */
  predicate CutAfter(items: seq<StreamItem>, all: seq<CompareRow>, n: nat) {
    n <= |all| && items == RowItems(all[..n]) + [Cancelled]
  }

  lemma {:induction false} RowsReachPreorder(env: Env, fuel: nat, root: Frame, n: nat)
    requires Fits(Trees(env), fuel, [root])
    ensures Numbered(env.enc, RowsAfter(Trees(env), n, [root]), 0) <= FullRows(env, fuel, root)
    ensures Agenda(Trees(env), n, [root]) == [] ==>
              Numbered(env.enc, RowsAfter(Trees(env), n, [root]), 0) == FullRows(env, fuel, root)
  {
    hide VisitRows, VisitFrames, Agenda, RowsAfter, Preorder, Fits, RowOf;
    var t, v := Trees(env), Visits(Trees(env), fuel, [root]);
    StackRefinesRecursion(t, fuel, [root]);
    if Agenda(t, n, [root]) == [] {
      if n <= v {
        NoMoreVisits(t, n, v - n, [root]);
      } else {
        NoMoreVisits(t, v, n - v, [root]);
      }
    }
  }

  /** The first `n` visits account for the stream so far: all rows of a prefix, at most one `Cancelled`, last. */
  ghost predicate StreamSoFar(env: Env, root: Frame, n: nat, items: seq<StreamItem>, fired: bool) {
    var all := Numbered(env.enc, RowsAfter(Trees(env), n, [root]), 0);
    || (|items| <= |all| && items == RowItems(all[..|items|]))
    || (fired && exists k: nat :: CutAfter(items, all, k))
  }

  /** The whole stream: all rows, or, only if the token fired, a prefix of them and `Cancelled`. */
  ghost predicate WholeStream(items: seq<StreamItem>, all: seq<CompareRow>, fired: bool) {
    items == RowItems(all) || (fired && exists n: nat :: CutAfter(items, all, n))
  }

  /**
    A consumer that asks `polls` times, over any two trees, endless ones included: what it has
    seen is a prefix of the rows of finitely many visits, ended by `Cancelled` only if the
    token fired, and ended as soon as it has; and if the trees are finite and it asked more often than there are rows, it
    has seen the whole stream, and its end.
   */
  method Poll(env: Env, root: Frame, token: Token, polls: nat)
    returns (items: seq<StreamItem>, ended: bool, ghost visits: nat)
    modifies token
    ensures |items| <= polls && (!ended ==> |items| == polls)
    ensures StreamSoFar(env, root, visits, items, token.Fired())
    ensures polls > 0 && old(token.Fired()) ==> items == [Cancelled] && ended
    ensures polls > 0 && token.Fired() ==> ended
    ensures ended && !token.Fired() ==> Agenda(Trees(env), visits, [root]) == []
    ensures forall fuel: nat :: Fits(Trees(env), fuel, [root]) && polls > |FullRows(env, fuel, root)| ==>
              ended && WholeStream(items, FullRows(env, fuel, root), token.Fired())
  {
    hide VisitRows, VisitFrames, Agenda, RowsAfter, Preorder, Fits, RowOf;
    items := [];
    var walk := new Walk(env, root, token);
    for i := 0 to polls
      invariant walk.Valid() && fresh(walk)
      invariant walk.env == env && walk.root == root && walk.token == token
      invariant |items| <= i && (!walk.finished ==> |items| == i)
      invariant old(token.Fired()) ==> token.Fired()
      invariant i > 0 && old(token.Fired()) ==> items == [Cancelled] && walk.finished
      invariant i > 0 && token.Fired() ==> walk.finished
      invariant i == 0 ==> walk.delivered == [] && !walk.cut && !walk.finished
      invariant items == RowItems(walk.delivered) + (if walk.cut then [Cancelled] else [])
    {
      var item := walk.Step();
      if item.Some? {
        items := items + [item.value];
      }
    }
    ended, visits := walk.finished, walk.visits;
    ghost var all := walk.Rows();
    assert walk.delivered == all[..|walk.delivered|];
    if walk.cut {
      assert CutAfter(items, all, |walk.delivered|);
    }
    forall fuel: nat | Fits(Trees(env), fuel, [root]) && polls > |FullRows(env, fuel, root)|
      ensures ended && WholeStream(items, FullRows(env, fuel, root), token.Fired())
    {
      RowsReachPreorder(env, fuel, root, walk.visits);
      ghost var whole := FullRows(env, fuel, root);
      assert walk.delivered == whole[..|walk.delivered|];
      if walk.cut {
        assert CutAfter(items, whole, |walk.delivered|);
      }
    }
  }

  /**
    The stream of a comparison, as far as it is asked for. An excluded root yields nothing.
    Otherwise the items are rows of the walk under ids 1, 2, 3, ..., in order and without a
    gap, then, only if the token fired, one `Cancelled`; nothing comes after the token has
    fired but that. And on finite trees, asked often enough, they are every row of the recursive walk, or a prefix and one `Cancelled`.
   */
  method Compare(env: Env, leftRoot: VPath, rightRoot: VPath, token: Token, polls: nat)
    returns (items: seq<StreamItem>, ended: bool, ghost visits: nat)
    modifies token
    ensures RootExcluded(env, leftRoot, rightRoot) ==> items == [] && ended
    ensures !RootExcluded(env, leftRoot, rightRoot) ==>
              var root := RootFrame(leftRoot, rightRoot);
              && |items| <= polls && (!ended ==> |items| == polls)
              && StreamSoFar(env, root, visits, items, token.Fired())
              && (polls > 0 && old(token.Fired()) ==> items == [Cancelled] && ended)
              && (polls > 0 && token.Fired() ==> ended)
              && (ended && !token.Fired() ==> Agenda(Trees(env), visits, [root]) == [])
              && (forall fuel: nat :: Fits(Trees(env), fuel, [root]) && polls > |FullRows(env, fuel, root)| ==>
                    ended && WholeStream(items, FullRows(env, fuel, root), token.Fired()))
  {
    hide VisitRows, VisitFrames, Agenda, RowsAfter, Preorder, Fits, RowOf, IsDescendant;
    if RootExcluded(env, leftRoot, rightRoot) {
      return [], true, 0;
    }
    items, ended, visits := Poll(env, RootFrame(leftRoot, rightRoot), token, polls);
  }

  /** A walk under a depth limit visits boundedly many directories, whatever the providers answer. */
  lemma VisitsAreBounded(w: Walk, limit: U32)
    requires w.Valid()
    requires w.env.opts.maxDepth == Some(limit) && limit < U32_MAX && w.root.depth == 0
    ensures w.visits <= SumOfPowers(w.env.cap, limit)
  {
    hide VisitRows, VisitFrames, Agenda, RowsAfter, Preorder, Fits, RowOf, SumOfPowers;
    var t := Trees(w.env);
    DepthLimitBoundsTheWalk(w.env, limit, w.root);
    var n: nat :| n <= SumOfPowers(w.env.cap, limit) && Agenda(t, n, [w.root]) == [];
    if n < w.visits {
      NoMoreVisits(t, n, w.visits - 1 - n, [w.root]);
    }
  }
}
