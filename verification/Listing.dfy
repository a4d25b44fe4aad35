/** From a provider's stream of items to the entries a visit works on, or to the reason it cannot. */
module Listing {
  import opened Proto
  import opened Vfs
  import opened Pair

  datatype ListResult = Entries(entries: seq<Entry>) | CannotList(reason: Reason)

  predicate DirectChild(dir: VPath, path: VPath) {
    && dir.scheme == path.scheme
    && dir.authority == path.authority
    && |path.segments| == |dir.segments| + 1
    && dir.segments <= path.segments
  }

  /** No path has two parents. */
  lemma ParentIsFixed(dir: VPath, other: VPath, path: VPath)
    requires DirectChild(dir, path) && DirectChild(other, path)
    ensures dir == other
  {
    var n := |path.segments| - 1;
    assert dir.segments == path.segments[..n] && other.segments == path.segments[..n];
  }

  /** The two segment iterators, walked together. */
  method IsDirectChild(dir: VPath, path: VPath) returns (b: bool)
    ensures b == DirectChild(dir, path)
  {
    if dir.scheme != path.scheme || dir.authority != path.authority {
      return false;
    }
    var i := 0;
    while true
      invariant 0 <= i <= |dir.segments| && i <= |path.segments|
      invariant dir.segments[..i] == path.segments[..i]
      decreases |dir.segments| - i
    {
      if i == |dir.segments| && i < |path.segments| {
        return i + 1 == |path.segments|;
      }
      if i == |dir.segments| || i == |path.segments| || dir.segments[i] != path.segments[i] {
        return false;
      }
      i := i + 1;
    }
  }

  function Prepend(out: seq<Entry>, res: ListResult): ListResult {
    match res
    case Entries(rest) => Entries(out + rest)
    case CannotList(_) => res
  }

  /** The listing from its `n`-th item on, when `n` entries are already in. */
  function Drain(at: nat -> Option<Item>, dir: VPath, cap: nat, n: nat): (res: ListResult)
    requires n <= cap
    ensures res.Entries? ==> n + |res.entries| <= cap
    ensures res.Entries? ==> forall e :: e in res.entries ==> DirectChild(dir, e.path)
    decreases cap - n
  {
    match at(n)
    case None => Entries([])
    case Some(BrokenItem) => CannotList(Unreadable)
    case Some(Listed(e)) =>
      if !DirectChild(dir, e.path) then CannotList(Unreadable)
      else if n >= cap then CannotList(DirTooLarge)
      else Prepend([e], Drain(at, dir, cap, n + 1))
  }

  /** `Drain` from the first item on, if the directory opens. */
  function ListAll(p: Provider, dir: VPath, cap: nat): (res: ListResult)
    ensures res.Entries? ==> |res.entries| <= cap
    ensures res.Entries? ==> forall e :: e in res.entries ==> DirectChild(dir, e.path)
  {
    match p.list(dir)
    case Unlistable => CannotList(Unreadable)
    case Stream(at) => Drain(at, dir, cap, 0)
  }

  predicate Excluded(excluded: seq<VPath>, path: VPath) {
    exists i :: 0 <= i < |excluded| && IsDescendant(excluded[i], path)
  }

  function Retain(excluded: seq<VPath>, entries: seq<Entry>): (res: seq<Entry>)
    ensures |res| <= |entries|
    ensures forall e :: e in res <==> e in entries && !Excluded(excluded, e.path)
  {
    if entries == [] then []
    else
      var n := |entries| - 1;
      assert entries == entries[..n] + [entries[n]];
      Retain(excluded, entries[..n]) + (if Excluded(excluded, entries[n].path) then [] else [entries[n]])
  }

  /** What is left of `ListAll` outside the excluded subtrees; the empty listing for `None`. */
  function ListVisible(env: Env, p: Provider, dir: Option<Entry>): (res: ListResult)
    ensures res.Entries? ==> |res.entries| <= env.cap
    ensures res.Entries? && dir.None? ==> res.entries == []
    ensures res.Entries? ==>
              forall e :: e in res.entries ==>
                && dir.Some?
                && DirectChild(dir.value.path, e.path)
                && !Excluded(env.excluded, e.path)
  {
    match dir
    case None => Entries([])
    case Some(d) =>
      match ListAll(p, d.path, env.cap)
      case Entries(entries) => Entries(Retain(env.excluded, entries))
      case failed => failed
  }

  datatype ListStep = Settled(res: ListResult) | ListCancelled

  /** The draining loop: ends within the cap whatever the provider streams, even without end. */
  method ListAllNow(p: Provider, dir: VPath, cap: nat, token: Token) returns (step: ListStep)
    modifies token
    ensures old(token.Fired()) ==> token.Fired()
    ensures step == ListCancelled ==> token.Fired()
    ensures step.Settled? ==> step.res == ListAll(p, dir, cap)
  {
    match p.list(dir) {
      case Unlistable => return Settled(CannotList(Unreadable));
      case Stream(at) =>
        var out: seq<Entry> := [];
        while at(|out|).Some?
          invariant |out| <= cap
          invariant old(token.Fired()) ==> token.Fired()
          invariant ListAll(p, dir, cap) == Prepend(out, Drain(at, dir, cap, |out|))
          decreases cap - |out|
        {
          var item := at(|out|).value;
          var cancelled := token.IsCancelled();
          if cancelled {
            return ListCancelled;
          }
          if item.BrokenItem? {
            return Settled(CannotList(Unreadable));
          }
          var direct := IsDirectChild(dir, item.entry.path);
          if !direct {
            return Settled(CannotList(Unreadable));
          }
          if |out| >= cap {
            return Settled(CannotList(DirTooLarge));
          }
          PrependAppends(out, item.entry, Drain(at, dir, cap, |out| + 1));
          out := out + [item.entry];
        }
        return Settled(Entries(out));
    }
  }

  lemma PrependAppends(out: seq<Entry>, e: Entry, res: ListResult)
    ensures Prepend(out, Prepend([e], res)) == Prepend(out + [e], res)
  {
    if res.Entries? {
      assert out + ([e] + res.entries) == (out + [e]) + res.entries;
    }
  }

  method ListVisibleNow(env: Env, p: Provider, dir: Option<Entry>, token: Token) returns (step: ListStep)
    modifies token
    ensures old(token.Fired()) ==> token.Fired()
    ensures step == ListCancelled ==> token.Fired()
    ensures step.Settled? ==> step.res == ListVisible(env, p, dir)
  {
    match dir {
      case None => step := Settled(Entries([]));
      case Some(d) =>
        step := ListAllNow(p, d.path, env.cap, token);
        if step.Settled? && step.res.Entries? {
          step := Settled(Entries(Retain(env.excluded, step.res.entries)));
        }
    }
  }

  // ----- a listing is all or nothing -----

  /** The stream from item `n` on: exactly these entries, all direct children, and then its end. */
  predicate Streams(at: nat -> Option<Item>, dir: VPath, n: nat, es: seq<Entry>) {
    && (forall i :: 0 <= i < |es| ==> at(n + i) == Some(Listed(es[i])) && DirectChild(dir, es[i].path))
    && at(n + |es|) == None
  }

  predicate GoodItem(at: nat -> Option<Item>, dir: VPath, i: nat) {
    at(i).Some? && at(i).value.Listed? && DirectChild(dir, at(i).value.entry.path)
  }

  lemma {:induction false} DrainIsExact(at: nat -> Option<Item>, dir: VPath, cap: nat, n: nat, es: seq<Entry>)
    requires n <= cap
    ensures Drain(at, dir, cap, n) == Entries(es) <==> n + |es| <= cap && Streams(at, dir, n, es)
    decreases cap - n
  {
    hide DirectChild;
    if es != [] {
      StreamsCons(at, dir, n, es);
    } else {
      assert n + |es| == n;
    }
    if GoodItem(at, dir, n) && n < cap {
      var e := at(n).value.entry;
      if es != [] {
        DrainIsExact(at, dir, cap, n + 1, es[1..]);
        var rest := Drain(at, dir, cap, n + 1);
        if rest.Entries? {
          assert ([e] + rest.entries)[1..] == rest.entries;
          assert es == [es[0]] + es[1..];
        }
      }
    }
  }

  lemma StreamsCons(at: nat -> Option<Item>, dir: VPath, n: nat, es: seq<Entry>)
    requires es != []
    ensures Streams(at, dir, n, es) <==>
            at(n) == Some(Listed(es[0])) && DirectChild(dir, es[0].path) && Streams(at, dir, n + 1, es[1..])
  {
    hide DirectChild;
    var rest := es[1..];
    if Streams(at, dir, n, es) {
      assert at(n + 0) == Some(Listed(es[0]));
      forall i | 0 <= i < |rest|
        ensures at(n + 1 + i) == Some(Listed(rest[i])) && DirectChild(dir, rest[i].path)
      {
        assert at(n + (i + 1)) == Some(Listed(es[i + 1]));
      }
      assert n + 1 + |rest| == n + |es|;
    }
    if at(n) == Some(Listed(es[0])) && DirectChild(dir, es[0].path) && Streams(at, dir, n + 1, rest) {
      forall i | 0 <= i < |es|
        ensures at(n + i) == Some(Listed(es[i])) && DirectChild(dir, es[i].path)
      {
        if i > 0 {
          assert at(n + 1 + (i - 1)) == Some(Listed(rest[i - 1]));
        }
      }
      assert n + 1 + |rest| == n + |es|;
    }
  }

  lemma {:induction false} DrainOverflows(at: nat -> Option<Item>, dir: VPath, cap: nat, n: nat)
    requires n <= cap
    ensures Drain(at, dir, cap, n) == CannotList(DirTooLarge) <==> forall i :: n <= i <= cap ==> GoodItem(at, dir, i)
    ensures Drain(at, dir, cap, n).CannotList? ==> Drain(at, dir, cap, n).reason in {Unreadable, DirTooLarge}
    decreases cap - n
  {
    hide DirectChild;
    if GoodItem(at, dir, n) && n < cap {
      DrainOverflows(at, dir, cap, n + 1);
    } else {
      assert n <= n <= cap;
    }
  }

  /**
    When a listing counts, and as what: exactly when the stream holds these entries, all of
    them direct children, no more than the cap, and then ends. Too large exactly when one
    direct child more than the cap comes; unreadable in every other case.
   */
  lemma ListAllIsExact(p: Provider, dir: VPath, cap: nat)
    ensures forall es :: ListAll(p, dir, cap) == Entries(es) <==>
              p.list(dir).Stream? && |es| <= cap && Streams(p.list(dir).at, dir, 0, es)
    ensures ListAll(p, dir, cap) == CannotList(DirTooLarge) <==>
              p.list(dir).Stream? && forall i :: 0 <= i <= cap ==> GoodItem(p.list(dir).at, dir, i)
    ensures ListAll(p, dir, cap).CannotList? ==> ListAll(p, dir, cap).reason in {Unreadable, DirTooLarge}
  {
    hide Streams, GoodItem, Drain;
    if p.list(dir).Stream? {
      DrainOverflows(p.list(dir).at, dir, cap, 0);
      forall es
        ensures Drain(p.list(dir).at, dir, cap, 0) == Entries(es) <==>
                |es| <= cap && Streams(p.list(dir).at, dir, 0, es)
      {
        DrainIsExact(p.list(dir).at, dir, cap, 0, es);
      }
    }
  }

  // ----- what is excluded -----

  /** `path` is `top` or extends it, segment by segment. */
  predicate Covers(top: VPath, path: VPath) {
    && top.scheme == path.scheme && top.authority == path.authority
    && |top.segments| <= |path.segments|
    && forall i :: 0 <= i < |top.segments| ==> top.segments[i] == path.segments[i]
  }

  lemma ExcludedIffCovered(excluded: seq<VPath>, path: VPath)
    ensures Excluded(excluded, path) <==> exists i :: 0 <= i < |excluded| && Covers(excluded[i], path)
  {
    forall i | 0 <= i < |excluded|
      ensures IsDescendant(excluded[i], path) <==> Covers(excluded[i], path)
    {
      CoversIsDescendant(excluded[i], path);
    }
  }

  lemma CoversIsDescendant(top: VPath, path: VPath)
    ensures IsDescendant(top, path) <==> Covers(top, path)
  {
    if Covers(top, path) {
      assert path.segments[..|top.segments|] == top.segments;
    }
  }

  /** Retaining keeps the entries at exactly the positions no excluded path covers, in their order. */
  lemma RetainInOrder(excluded: seq<VPath>, entries: seq<Entry>) returns (at: seq<nat>)
    ensures |at| == |Retain(excluded, entries)|
    ensures forall m, n :: 0 <= m < n < |at| ==> at[m] < at[n]
    ensures forall n :: 0 <= n < |at| ==> at[n] < |entries| && Retain(excluded, entries)[n] == entries[at[n]]
    ensures forall i :: i in at <==>
              0 <= i < |entries| && !exists x :: 0 <= x < |excluded| && Covers(excluded[x], entries[i].path)
  {
    hide Covers, Excluded, Retain;
    at := RetainPositions(excluded, entries);
    forall i | 0 <= i < |entries|
      ensures Excluded(excluded, entries[i].path) <==>
              exists x :: 0 <= x < |excluded| && Covers(excluded[x], entries[i].path)
    {
      ExcludedIffCovered(excluded, entries[i].path);
    }
  }

  /** `res` is what stands at positions `at` of `entries`, in order. */
  predicate PickedAt(entries: seq<Entry>, res: seq<Entry>, at: seq<nat>) {
    && |at| == |res|
    && (forall m, n :: 0 <= m < n < |at| ==> at[m] < at[n])
    && (forall n :: 0 <= n < |at| ==> at[n] < |entries| && res[n] == entries[at[n]])
  }

  lemma PickedOneMore(entries: seq<Entry>, res: seq<Entry>, at: seq<nat>)
    requires entries != [] && PickedAt(entries[..|entries| - 1], res, at)
    ensures PickedAt(entries, res, at)
    ensures PickedAt(entries, res + [entries[|entries| - 1]], at + [|entries| - 1])
  {
  }

  lemma RetainStep(excluded: seq<VPath>, entries: seq<Entry>)
    requires entries != []
    ensures var n := |entries| - 1;
            Retain(excluded, entries) ==
              Retain(excluded, entries[..n]) + (if Excluded(excluded, entries[n].path) then [] else [entries[n]])
  {
    hide Excluded;
  }

  lemma {:induction false} RetainPositions(excluded: seq<VPath>, entries: seq<Entry>) returns (at: seq<nat>)
    ensures PickedAt(entries, Retain(excluded, entries), at)
    ensures forall i :: i in at <==> 0 <= i < |entries| && !Excluded(excluded, entries[i].path)
  {
    hide Excluded, PickedAt, Retain;
    if entries == [] {
      at := NothingPicked(excluded);
    } else {
      var n := |entries| - 1;
      at := RetainPositions(excluded, entries[..n]);
      PickedOneMore(entries, Retain(excluded, entries[..n]), at);
      RetainStep(excluded, entries);
      if !Excluded(excluded, entries[n].path) {
        at := at + [n];
      } else {
        assert Retain(excluded, entries[..n]) + [] == Retain(excluded, entries[..n]);
      }
    }
  }

  lemma NothingPicked(excluded: seq<VPath>) returns (at: seq<nat>)
    ensures at == [] && PickedAt([], Retain(excluded, []), at)
  {
    at := [];
  }

  /**
    What a visit sees of a directory, exactly: it fails as the listing does; otherwise it sees
    the listed entries at the positions no excluded path covers, in listing order.
   */
  lemma VisibleIsExact(env: Env, p: Provider, d: Entry) returns (at: seq<nat>)
    ensures var all, seen := ListAll(p, d.path, env.cap), ListVisible(env, p, Some(d));
            && (all.CannotList? ==> seen == all)
            && (all.Entries? ==>
                  && seen.Entries? && PickedAt(all.entries, seen.entries, at)
                  && forall i :: i in at <==>
                       && 0 <= i < |all.entries|
                       && !exists x :: 0 <= x < |env.excluded| && Covers(env.excluded[x], all.entries[i].path))
  {
    hide ListAll, Retain, Covers;
    at := [];
    if ListAll(p, d.path, env.cap).Entries? {
      at := RetainInOrder(env.excluded, ListAll(p, d.path, env.cap).entries);
    }
  }
}
