/** Two walks of which one descends further: what it adds, and that it only adds. */
module Extension {
  import opened Traversal

  function Skipping<A>(s: seq<A>, skip: A -> bool): seq<A> {
    if s == [] then []
    else (if skip(s[0]) then [] else [s[0]]) + Skipping(s[1..], skip)
  }

  function Mark<R>(rows: seq<R>, mark: bool): (ms: seq<(R, bool)>)
    ensures |ms| == |rows|
    ensures forall i :: 0 <= i < |rows| ==> ms[i] == (rows[i], mark)
  {
    seq(|rows|, i requires 0 <= i < |rows| => (rows[i], mark))
  }

  /** The marked rows without their marks. */
  function Rows<R>(ms: seq<(R, bool)>): (rows: seq<R>)
    ensures |rows| == |ms|
    ensures forall i :: 0 <= i < |ms| ==> rows[i] == ms[i].0
  {
    seq(|ms|, i requires 0 <= i < |ms| => ms[i].0)
  }

  /** What is left once the marked rows are deleted. */
  function Unmarked<R>(s: seq<(R, bool)>): seq<R> {
    if s == [] then []
    else (if s[0].1 then [] else [s[0].0]) + Unmarked(s[1..])
  }

  /** The pre-order rows, each marked with whether its frame is an added one. */
  function Tagged<F, R>(t: Tree<F, R>, fuel: nat, todo: seq<F>, added: F -> bool): seq<(R, bool)>
    decreases fuel, |todo|
  {
    if todo == [] then []
    else
      Mark(t.rows(todo[0]), added(todo[0])) +
      (if fuel == 0 then [] else Tagged(t, fuel - 1, t.kids(todo[0]), added)) +
      Tagged(t, fuel, todo[1..], added)
  }

  function TaggedBelow<F, R>(t: Tree<F, R>, fuel: nat, f: F, added: F -> bool): seq<(R, bool)> {
    if fuel == 0 then [] else Tagged(t, fuel - 1, t.kids(f), added)
  }

  lemma Untag<F, R>(t: Tree<F, R>, fuel: nat, todo: seq<F>, added: F -> bool)
    ensures todo == [] ==> Tagged(t, fuel, todo, added) == [] && Preorder(t, fuel, todo) == []
    ensures todo != [] ==>
              && Tagged(t, fuel, todo, added)
              == Mark(t.rows(todo[0]), added(todo[0])) + TaggedBelow(t, fuel, todo[0], added)
               + Tagged(t, fuel, todo[1..], added)
              && Preorder(t, fuel, todo)
              == t.rows(todo[0]) + Below(t, fuel, todo[0]) + Preorder(t, fuel, todo[1..])
  {
  }

  lemma RowsAppend<R>(a: seq<(R, bool)>, b: seq<(R, bool)>, c: seq<(R, bool)>)
    ensures Rows(a + b + c) == Rows(a) + Rows(b) + Rows(c)
  {
  }

  /** Dropping the marks gives the walk itself. */
  lemma {:induction false} TaggedRows<F, R>(t: Tree<F, R>, fuel: nat, todo: seq<F>, added: F -> bool)
    ensures Rows(Tagged(t, fuel, todo, added)) == Preorder(t, fuel, todo)
    decreases fuel, |todo|
  {
    hide Tagged, Preorder;
    Untag(t, fuel, todo, added);
    if todo != [] {
      var f := todo[0];
      TaggedRows(t, fuel, todo[1..], added);
      if fuel > 0 {
        TaggedRows(t, fuel - 1, t.kids(f), added);
      }
      RowsAppend(Mark(t.rows(f), added(f)), TaggedBelow(t, fuel, f, added), Tagged(t, fuel, todo[1..], added));
      assert Rows(Mark(t.rows(f), added(f))) == t.rows(f);
      assert Rows(TaggedBelow(t, fuel, f, added)) == Below(t, fuel, f);
    }
  }

  lemma {:induction false} UnmarkedAppend<R>(a: seq<(R, bool)>, b: seq<(R, bool)>)
    ensures Unmarked(a + b) == Unmarked(a) + Unmarked(b)
  {
    if a == [] {
      assert a + b == b;
    } else {
      assert (a + b)[1..] == a[1..] + b;
      UnmarkedAppend(a[1..], b);
    }
  }

  lemma {:induction false} UnmarkedMark<R>(rows: seq<R>, mark: bool)
    ensures Unmarked(Mark(rows, mark)) == if mark then [] else rows
  {
    if rows != [] {
      UnmarkedMark(rows[1..], mark);
      assert Mark(rows, mark)[1..] == Mark(rows[1..], mark);
    }
  }

  lemma NothingUnmarked<R>()
    ensures Unmarked<R>([]) == []
  {
  }

  lemma TaggedParts<F, R>(t: Tree<F, R>, fuel: nat, todo: seq<F>, added: F -> bool)
    ensures todo == [] ==> Unmarked(Tagged(t, fuel, todo, added)) == []
    ensures todo != [] ==>
              (Unmarked(Tagged(t, fuel, todo, added)) ==
               (if added(todo[0]) then [] else t.rows(todo[0])) +
               Unmarked(TaggedBelow(t, fuel, todo[0], added)) +
               Unmarked(Tagged(t, fuel, todo[1..], added)))
  {
    hide Tagged, Unmarked;
    Untag(t, fuel, todo, added);
    NothingUnmarked<R>();
    if todo != [] {
      var own, below := Mark(t.rows(todo[0]), added(todo[0])), TaggedBelow(t, fuel, todo[0], added);
      UnmarkedAppend(own + below, Tagged(t, fuel, todo[1..], added));
      UnmarkedAppend(own, below);
      UnmarkedMark(t.rows(todo[0]), added(todo[0]));
    }
  }

  /** The second tree has the first one's frames and rows, plus added frames that only lead to added frames. */
  ghost predicate Extends<F(!new), R>(t: Tree<F, R>, u: Tree<F, R>, added: F -> bool) {
    && (forall f :: !added(f) ==> u.rows(f) == t.rows(f))
    && (forall f :: !added(f) ==> t.kids(f) == Skipping(u.kids(f), added))
    && (forall f, i :: added(f) && 0 <= i < |u.kids(f)| ==> added(u.kids(f)[i]))
  }

  lemma {:induction false} AllAdded<F(!new), R>(t: Tree<F, R>, u: Tree<F, R>, fuel: nat, todo: seq<F>, added: F -> bool)
    requires Extends(t, u, added)
    requires forall i :: 0 <= i < |todo| ==> added(todo[i])
    ensures Unmarked(Tagged(u, fuel, todo, added)) == []
    decreases fuel, |todo|
  {
    hide Tagged, Unmarked, Skipping;
    TaggedParts(u, fuel, todo, added);
    NothingUnmarked<R>();
    if todo != [] {
      AllAdded(t, u, fuel, todo[1..], added);
      if fuel > 0 {
        AllAdded(t, u, fuel - 1, u.kids(todo[0]), added);
      }
    }
  }

  lemma SkippingHead<A>(s: seq<A>, skip: A -> bool)
    ensures s == [] ==> Skipping(s, skip) == []
    ensures s != [] && skip(s[0]) ==> Skipping(s, skip) == Skipping(s[1..], skip)
    ensures s != [] && !skip(s[0]) ==>
              && Skipping(s, skip) == [s[0]] + Skipping(s[1..], skip)
              && Skipping(s, skip)[1..] == Skipping(s[1..], skip)
  {
  }

  /** Descending further only adds: deleting the marked rows gives the smaller walk, in its order. */
  lemma {:induction false} OnlyAdds<F(!new), R>(t: Tree<F, R>, u: Tree<F, R>, fuel: nat, todo: seq<F>, added: F -> bool)
    requires Extends(t, u, added)
    ensures Unmarked(Tagged(u, fuel, todo, added)) == Preorder(t, fuel, Skipping(todo, added))
    decreases fuel, |todo|
  {
    hide Tagged, Unmarked, Skipping, Preorder;
    TaggedParts(u, fuel, todo, added);
    SkippingHead(todo, added);
    NothingUnmarked<R>();
    Untag(t, fuel, Skipping(todo, added), added);
    if todo != [] {
      var f := todo[0];
      OnlyAdds(t, u, fuel, todo[1..], added);
      if fuel > 0 {
        if added(f) {
          AllAdded(t, u, fuel - 1, u.kids(f), added);
        } else {
          OnlyAdds(t, u, fuel - 1, u.kids(f), added);
        }
      }
    }
  }

  /** Every added child of a frame is announced by one of that frame's rows. */
  ghost predicate Announced<F(!new), R>(t: Tree<F, R>, added: F -> bool, announces: (R, F) -> bool) {
    forall f, k :: 0 <= k < |t.kids(f)| && added(t.kids(f)[k]) ==> Announcer(t, f, t.kids(f)[k], announces)
  }

  ghost predicate Announcer<F, R>(t: Tree<F, R>, f: F, g: F, announces: (R, F) -> bool) {
    exists i :: 0 <= i < |t.rows(f)| && announces(t.rows(f)[i], g)
  }

  /**
    Where the marked rows come from: each is a row of an added frame, and that frame is either
    one the walk starts from or announced by a row of the walk.
   */
  lemma {:induction false} MarkedRowsAreAnnounced<F(!new), R>(
      t: Tree<F, R>, fuel: nat, todo: seq<F>, added: F -> bool, announces: (R, F) -> bool, i: nat)
      returns (f: F, announced: bool, j: nat)
    requires Announced(t, added, announces)
    requires i < |Tagged(t, fuel, todo, added)| && Tagged(t, fuel, todo, added)[i].1
    ensures added(f) && Tagged(t, fuel, todo, added)[i].0 in t.rows(f)
    ensures announced ==> j < |Preorder(t, fuel, todo)| && announces(Preorder(t, fuel, todo)[j], f)
    ensures !announced ==> f in todo
    decreases fuel, |todo|
  {
    hide Tagged, Preorder, Announced, Announcer;
    Untag(t, fuel, todo, added);
    var own := t.rows(todo[0]);
    var below, after := TaggedBelow(t, fuel, todo[0], added), Tagged(t, fuel, todo[1..], added);
    TaggedRows(t, fuel, todo[1..], added);
    if fuel > 0 {
      TaggedRows(t, fuel - 1, t.kids(todo[0]), added);
    }
    if i < |own| {
      f, announced, j := todo[0], false, 0;
    } else if i < |own| + |below| {
      f, announced, j := MarkedRowsAreAnnounced(t, fuel - 1, t.kids(todo[0]), added, announces, i - |own|);
      if announced {
        j := j + |own|;
      } else {
        j := ByItsRow(t, todo[0], f, added, announces);
        announced := true;
      }
    } else {
      f, announced, j := MarkedRowsAreAnnounced(t, fuel, todo[1..], added, announces, i - |own| - |below|);
      j := j + |own| + |below|;
    }
  }

  lemma ByItsRow<F(!new), R>(t: Tree<F, R>, f: F, g: F, added: F -> bool, announces: (R, F) -> bool) returns (j: nat)
    requires Announced(t, added, announces) && g in t.kids(f) && added(g)
    ensures j < |t.rows(f)| && announces(t.rows(f)[j], g)
  {
    var k :| 0 <= k < |t.kids(f)| && t.kids(f)[k] == g;
    assert Announcer(t, f, t.kids(f)[k], announces);
    j :| 0 <= j < |t.rows(f)| && announces(t.rows(f)[j], g);
  }
}
