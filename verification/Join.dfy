/**
  The two middle steps of a visit: the merge-join, which fixes the order of the rows and
  which pairs wait for hydration, and the concurrent hydration of those pairs.
 */
module Join {
  import opened Proto
  import opened ByteOrder
  import opened Vfs
  import opened Pair
  import opened Key
  import opened Visit

  datatype Step = ReadyRow(row: PendingRow) | Equal(i: nat)

  /** One step per merge item; `Equal(i)` refers to `pairs[i]`; `descend` is not yet reversed. */
  datatype Joined = Joined(steps: seq<Step>, pairs: seq<(Entry, Entry)>, descend: seq<Frame>)

  function Extend(env: Env, c: Collided, depth: U32, j: Joined, item: MergeItem): Joined {
    if item.Both? then
      Joined(j.steps + [Equal(|j.pairs|)], j.pairs + [(item.l, item.r)],
             j.descend + ItemFrames(env.opts, c, depth, item))
    else
      Joined(j.steps + [ReadyRow(ItemRow(env, c, item))], j.pairs,
             j.descend + ItemFrames(env.opts, c, depth, item))
  }

  /** What the merge-join hands over once it has seen these items. */
  function JoinedOf(env: Env, c: Collided, depth: U32, items: seq<MergeItem>): Joined {
    if items == [] then Joined([], [], [])
    else Extend(env, c, depth, JoinedOf(env, c, depth, items[..|items| - 1]), items[|items| - 1])
  }

  /** The step stands for the item: its row if it needs no I/O, its pair otherwise. */
  predicate StandsFor(env: Env, c: Collided, pairs: seq<(Entry, Entry)>, step: Step, item: MergeItem) {
    match step
    case ReadyRow(row) => !item.Both? && row == ItemRow(env, c, item)
    case Equal(i) => item.Both? && i < |pairs| && pairs[i] == (item.l, item.r)
  }

  lemma {:induction false} AllFramesAppend(opts: CompareOptions, c: Collided, depth: U32, items: seq<MergeItem>, item: MergeItem)
    ensures AllFrames(opts, c, depth, items + [item])
         == AllFrames(opts, c, depth, items) + ItemFrames(opts, c, depth, item)
  {
    if items == [] {
      assert [item][1..] == [];
      assert [] + [item] == [item];
    } else {
      assert (items + [item])[1..] == items[1..] + [item];
      AllFramesAppend(opts, c, depth, items[1..], item);
    }
  }

  /** Later `Equal` steps name later slots: no slot is ever named twice. */
  predicate NamedOnce(steps: seq<Step>) {
    forall n, m :: 0 <= n < m < |steps| && steps[n].Equal? && steps[m].Equal? ==> steps[n].i < steps[m].i
  }

  lemma {:induction false} JoinedNamesOnce(env: Env, c: Collided, depth: U32, items: seq<MergeItem>)
    ensures var j := JoinedOf(env, c, depth, items);
            NamedOnce(j.steps) && forall n :: 0 <= n < |j.steps| && j.steps[n].Equal? ==> j.steps[n].i < |j.pairs|
  {
    hide ItemRow, ItemFrames;
    if items != [] {
      JoinedNamesOnce(env, c, depth, items[..|items| - 1]);
    }
  }

  lemma NoFrames(opts: CompareOptions, c: Collided, depth: U32)
    ensures AllFrames(opts, c, depth, []) == []
  {
  }

  lemma {:induction false} JoinedSpec(env: Env, c: Collided, depth: U32, items: seq<MergeItem>)
    ensures var j := JoinedOf(env, c, depth, items);
            && |j.steps| == |items|
            && (forall n :: 0 <= n < |items| ==> StandsFor(env, c, j.pairs, j.steps[n], items[n]))
            && NamedOnce(j.steps)
            && j.descend == AllFrames(env.opts, c, depth, items)
  {
    hide ItemRow, ItemFrames, AllFrames, NamedOnce;
    JoinedNamesOnce(env, c, depth, items);
    if items == [] {
      NoFrames(env.opts, c, depth);
    } else {
      var before, item := items[..|items| - 1], items[|items| - 1];
      JoinedSpec(env, c, depth, before);
      AllFramesAppend(env.opts, c, depth, before, item);
      assert items == before + [item];
    }
  }

  /** The two-pointer loop. It gives up only if the token fired. */
  method MergeJoin(env: Env, leftIndex: SideIndex, rightIndex: SideIndex, c: Collided, depth: U32, token: Token)
    returns (joined: Option<Joined>)
    requires leftIndex.Valid() && rightIndex.Valid()
    modifies token
    ensures old(token.Fired()) ==> token.Fired()
    ensures joined.None? ==> token.Fired()
    ensures joined.Some? ==>
              joined.value == JoinedOf(env, c, depth, Merge(Unique(leftIndex), Unique(rightIndex)))
  {
    hide Unique, PairRow, SideRow, ItemFrames;
    var ls, rs := Unique(leftIndex), Unique(rightIndex);
    var i, k := 0, 0;
    var j := Joined([], [], []);
    ghost var seen: seq<MergeItem> := [];
    while true
      invariant 0 <= i <= |ls| && 0 <= k <= |rs|
      invariant old(token.Fired()) ==> token.Fired()
      invariant Merge(ls, rs) == seen + Merge(ls[i..], rs[k..])
      invariant j == JoinedOf(env, c, depth, seen)
      decreases |ls| - i + |rs| - k
    {
      var cancelled := token.IsCancelled();
      if cancelled {
        return None;
      }
      if i == |ls| && k == |rs| {
        break;
      }
      var item: MergeItem;
      MergeStep(ls, rs, i, k);
      if k == |rs| || (i < |ls| && Less(ls[i].0, rs[k].0)) {
        item := LeftOnly(ls[i].0, ls[i].1);
        i := i + 1;
      } else if i == |ls| || Less(rs[k].0, ls[i].0) {
        item := RightOnly(rs[k].0, rs[k].1);
        k := k + 1;
      } else {
        item := Both(ls[i].0, ls[i].1, rs[k].1);
        i, k := i + 1, k + 1;
      }
      j := Extend(env, c, depth, j, item);
      SeenGrows(seen, item, Merge(ls[i..], rs[k..]));
      seen := seen + [item];
    }
    assert seen + Merge(ls[i..], rs[k..]) == seen;
    joined := Some(j);
  }

  lemma MergeStep(ls: seq<(Bytes, Entry)>, rs: seq<(Bytes, Entry)>, i: nat, k: nat)
    requires i <= |ls| && k <= |rs| && (i < |ls| || k < |rs|)
    ensures Merge(ls[i..], rs[k..]) ==
            if k == |rs| || (i < |ls| && Less(ls[i].0, rs[k].0)) then
              [LeftOnly(ls[i].0, ls[i].1)] + Merge(ls[i + 1..], rs[k..])
            else if i == |ls| || Less(rs[k].0, ls[i].0) then
              [RightOnly(rs[k].0, rs[k].1)] + Merge(ls[i..], rs[k + 1..])
            else
              [Both(ls[i].0, ls[i].1, rs[k].1)] + Merge(ls[i + 1..], rs[k + 1..])
  {
    hide Less;
    if i < |ls| {
      assert ls[i..][1..] == ls[i + 1..];
    }
    if k < |rs| {
      assert rs[k..][1..] == rs[k + 1..];
    }
  }

  lemma SeenGrows(seen: seq<MergeItem>, item: MergeItem, rest: seq<MergeItem>)
    ensures seen + ([item] + rest) == (seen + [item]) + rest
    ensures (seen + [item])[..|seen + [item]| - 1] == seen
  {
  }

  /** The row the `i`-th pair is to get. */
  function RowAt(env: Env, pairs: seq<(Entry, Entry)>, i: nat): PendingRow
    requires i < |pairs|
  {
    PairRow(env, pairs[i].0, pairs[i].1)
  }

  /** One future of the window. */
  method PairOutcomeAt(env: Env, pairs: seq<(Entry, Entry)>, i: nat, token: Token) returns (row: Option<PendingRow>)
    requires i < |pairs|
    modifies token
    ensures old(token.Fired()) ==> token.Fired()
    ensures (row == None && token.Fired()) || row == Some(RowAt(env, pairs, i))
  {
    hide PairRow;
    row := PairOutcome(env, pairs[i].0, pairs[i].1, token);
  }

  const HYDRATE_CONCURRENCY: nat := 12

  datatype Arrival = Arrival(i: nat, outcome: Option<PendingRow>)

  function Without<T>(s: seq<T>, p: nat): (r: seq<T>)
    requires p < |s|
    ensures |r| == |s| - 1
  {
    s[..p] + s[p + 1..]
  }

  lemma WithoutKeeps<T>(s: seq<T>, p: nat)
    requires p < |s|
    ensures forall x :: x in s && x != s[p] ==> x in Without(s, p)
    ensures forall x :: x in Without(s, p) ==> x in s
  {
  }

  /** The started pair `i` still runs, waits to be taken, or sits right in its slot. */
  ghost predicate Accounted(env: Env, pairs: seq<(Entry, Entry)>, running: seq<nat>, arrived: seq<Arrival>,
                            resolved: seq<Option<PendingRow>>, i: nat)
    requires i < |pairs| == |resolved|
  {
    || i in running
    || Arrival(i, Some(RowAt(env, pairs, i))) in arrived
    || resolved[i] == Some(RowAt(env, pairs, i))
  }

  /** Every arrival carries its own pair's row. */
  ghost predicate AllRight(env: Env, pairs: seq<(Entry, Entry)>, arrived: seq<Arrival>) {
    forall a :: a in arrived ==> a.i < |pairs| && a.outcome == Some(RowAt(env, pairs, a.i))
  }

  /**
    Hydrates all pairs, at most twelve in flight. Which future runs next and which result
    arrives next is left open, so the contract covers every completion order: unless the
    token fired, each slot holds its own pair's row.
   */
  method HydrateAll(env: Env, pairs: seq<(Entry, Entry)>, token: Token) returns (resolved: seq<Option<PendingRow>>)
    modifies token
    ensures old(token.Fired()) ==> token.Fired()
    ensures |resolved| == |pairs|
    ensures !token.Fired() ==> forall i :: 0 <= i < |pairs| ==> resolved[i] == Some(RowAt(env, pairs, i))
  {
    hide RowAt, PairRow, Without;
    resolved := seq(|pairs|, _ => None);
    var next := 0;
    var running: seq<nat> := [];
    var arrived: seq<Arrival> := [];
    while next < |pairs| || running != [] || arrived != []
      invariant 0 <= next <= |pairs| == |resolved|
      invariant old(token.Fired()) ==> token.Fired()
      invariant |running| + |arrived| <= HYDRATE_CONCURRENCY
      invariant forall i :: i in running ==> i < |pairs|
      invariant forall a :: a in arrived ==> a.i < |pairs|
      invariant !token.Fired() ==> AllRight(env, pairs, arrived)
      invariant !token.Fired() ==>
                  forall i :: 0 <= i < next ==> Accounted(env, pairs, running, arrived, resolved, i)
      decreases |pairs| - next, |running|, |arrived|
    {
      ghost var was := (running, arrived, resolved);
      if {
        case next < |pairs| && |running| + |arrived| < HYDRATE_CONCURRENCY =>
          running, next := running + [next], next + 1;
        case running != [] =>
          var p :| 0 <= p < |running|;
          assert running[p] in running;
          var outcome := PairOutcomeAt(env, pairs, running[p], token);
          WithoutKeeps(running, p);
          arrived := arrived + [Arrival(running[p], outcome)];
          running := Without(running, p);
        case arrived != [] =>
          var p :| 0 <= p < |arrived|;
          assert arrived[p] in arrived;
          WithoutKeeps(arrived, p);
          resolved := resolved[arrived[p].i := arrived[p].outcome];
          arrived := Without(arrived, p);
      }
      forall i | 0 <= i < next && !token.Fired()
        ensures Accounted(env, pairs, running, arrived, resolved, i)
      {
        assert i in running || Accounted(env, pairs, was.0, was.1, was.2, i);
      }
    }
    forall i | 0 <= i < |pairs| && !token.Fired()
      ensures resolved[i] == Some(RowAt(env, pairs, i))
    {
      assert Accounted(env, pairs, running, arrived, resolved, i);
    }
  }
}
