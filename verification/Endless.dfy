/**
  Two endless trees, each directory holding one directory: a depth limit of `u32::MAX` lets
  the walk go deeper than it says, and any smaller one does not.
 */
module Endless {
  import opened Proto
  import opened Vfs
  import opened Key
  import opened Pair
  import opened Listing
  import opened Visit
  import opened Traversal
  import opened Bounds
  import opened Walk
  import opened Containment
  import opened Descent

  const NAME: Bytes := [100]

  function Child(dir: VPath): Entry {
    SyntheticDir(dir.(segments := dir.segments + [NAME]))
  }

  function OneChild(dir: VPath): nat -> Option<Item> {
    n => if n == 0 then Some(Listed(Child(dir))) else None
  }

  /** Every directory lists exactly one directory; nothing else answers. */
  function Tower(): Provider {
    Provider(dir => Stream(OneChild(dir)), _ => None, _ => Unopenable, _ => None, _ => None)
  }

  ghost predicate ComparesTowers(env: Env) {
    env.left == Tower() && env.right == Tower() && env.cap >= 1 && env.excluded == []
  }

  lemma TowerLists(env: Env, dir: Entry)
    requires ComparesTowers(env)
    ensures ListVisible(env, Tower(), Some(dir)) == Entries([Child(dir.path)])
  {
    var at, e := OneChild(dir.path), Child(dir.path);
    assert DirectChild(dir.path, e.path);
    assert Drain(at, dir.path, env.cap, 1) == Entries([]);
    assert Drain(at, dir.path, env.cap, 0) == Entries([e]);
    assert [e][..0] == [];
    assert Retain([], [e]) == [e];
  }

  lemma OnlyHolder(enc: Encoding, e: Entry, sides: Sides)
    ensures HeldOnce(enc, [e], sides, (KeyOf(enc, e, sides), e))
  {
    var ks := Keys(enc, [e], sides);
    assert ks[..0] == [];
    assert Positions(ks, ks[0]) == [0];
  }

  /** The frame below a frame of the two towers. */
  function Below(f: Frame): Frame
    requires f.left.Some? && f.right.Some?
  {
    Frame(Some(Child(f.left.value.path)), Some(Child(f.right.value.path)), SaturatingSucc(f.depth))
  }

  lemma TowerFrames(env: Env, f: Frame)
    requires ComparesTowers(env) && f.left.Some? && f.right.Some? && DescendsBelow(env.opts, f.depth)
    ensures VisitFrames(env, f) == [Below(f)]
  {
    hide ListVisible, SidesFor, Indexed, Unique, Merge, Collisions, CollidedAmong, AllFrames, Holders;
    TowerLists(env, f.left.value);
    TowerLists(env, f.right.value);
    var p, l, r := PairedOf(env, f), Child(f.left.value.path), Child(f.right.value.path);
    assert p.lefts == [l] && p.rights == [r];
    OnlyHolder(p.enc, l, p.sides);
    OnlyHolder(p.enc, r, p.sides);
    SameName(p.enc, p.sides, f.left.value.path, f.right.value.path);
    assert DescendedAt(env, p, f.depth, Below(f), KeyOf(p.enc, l, p.sides));
    DescendsExactly(env, f, Below(f));
    AtMostOneFrame(env, f);
  }

  lemma SameName(enc: Encoding, sides: Sides, a: VPath, b: VPath)
    ensures KeyOf(enc, Child(a), sides) == KeyOf(enc, Child(b), sides)
  {
  }

  lemma AtMostOneFrame(env: Env, f: Frame)
    requires BothListed(env, f) && |LeftListing(env, f).entries| == 1 && |RightListing(env, f).entries| == 1
    ensures |VisitFrames(env, f)| <= 1
  {
    hide ListVisible, SidesFor, Indexed, Unique, Merge, Collisions, CollidedAmong, AllFrames;
    var p := PairedOf(env, f);
    MergeKeepsBothSides(Unique(p.LeftIndex()), Unique(p.RightIndex()));
    UniqueIsNoLonger(p.enc, p.lefts, p.sides);
    UniqueIsNoLonger(p.enc, p.rights, p.sides);
    if env.opts.descendOrphans != Some(Right) {
      FramesWithinLeft(env.opts, p.Clashes(), f.depth, p.Items());
    } else {
      FramesWithinRight(env.opts, p.Clashes(), f.depth, p.Items());
    }
  }

  /** How far below the left root the frame's left directory lies. */
  function Level(left: VPath, f: Frame): int {
    if f.left.Some? then |f.left.value.path.segments| - |left.segments| else 0
  }

  /** With nothing to stop it, the walk is exactly one level deeper after each visit, for ever. */
  lemma {:induction false} OneLevelPerVisit(env: Env, left: VPath, right: VPath, n: nat)
    requires ComparesTowers(env) && forall depth: U32 :: DescendsBelow(env.opts, depth)
    ensures var agenda := Agenda(Trees(env), n, [RootFrame(left, right)]);
            && |agenda| == 1 && Level(left, agenda[0]) == n
            && agenda[0].left.Some? && agenda[0].right.Some?
  {
    hide VisitFrames, VisitRows, DescendsBelow, ComparesTowers;
    if n > 0 {
      hide Agenda;
      OneLevelPerVisit(env, left, right, n - 1);
      var f := Agenda(Trees(env), n - 1, [RootFrame(left, right)])[0];
      OneMoreVisit(Trees(env), n - 1, [RootFrame(left, right)]);
      TowerFrames(env, f);
    }
  }

  /** Some visit leaves a directory more than `limit` levels below its root to be walked. */
  ghost predicate GoesDeeper(env: Env, left: VPath, right: VPath, limit: U32) {
    exists n: nat, i: nat ::
      && i < |Agenda(Trees(env), n, [RootFrame(left, right)])|
      && Level(left, Agenda(Trees(env), n, [RootFrame(left, right)])[i]) > limit
  }

  /** On two endless trees the depth limit is exceeded if and only if it is `u32::MAX`. */
  lemma LimitIsExceeded(env: Env, left: VPath, right: VPath, limit: U32)
    requires ComparesTowers(env) && env.opts.maxDepth == Some(limit)
    ensures GoesDeeper(env, left, right, limit) <==> limit == U32_MAX
  {
    hide VisitFrames, VisitRows, Agenda, RowsAfter;
    if limit == U32_MAX {
      OneLevelPerVisit(env, left, right, limit + 1);
      assert |Agenda(Trees(env), limit + 1, [RootFrame(left, right)])| > 0;
    } else {
      forall n: nat, i: nat | i < |Agenda(Trees(env), n, [RootFrame(left, right)])|
        ensures Level(left, Agenda(Trees(env), n, [RootFrame(left, right)])[i]) <= limit
      {
        EveryRunStaysInside(env, left, right, n);
      }
    }
  }
}
