/**
  The interrupt gate as a state machine of four operations, its class, and what its two flags
  and its answers mean in terms of the operations that came before.
 */
module Sigint {
  import opened Proto

  datatype Action = Cancel | Defer | Exit

  datatype Gate<C> = Gate(target: Option<C>, arming: bool, pending: bool)

  datatype Op<C> = Signal | Arming | PointAt(canceller: C) | Release

  /** What one operation answers: the action of a signal, if any, and the canceller handed out, if any. */
  datatype Answer<C> = Answer(action: Option<Action>, handed: Option<C>)

  function Idle<C>(): Gate<C> {
    Gate(None, false, false)
  }

  /** One operation, as a value: the reference the methods of the gate are proved against. */
  function Next<C>(g: Gate<C>, op: Op<C>): (Gate<C>, Answer<C>) {
    match op
    case Signal =>
      if g.target.Some? then (g.(target := None), Answer(Some(Cancel), g.target))
      else if g.arming then (g.(pending := true), Answer(Some(Defer), None))
      else (g, Answer(Some(Exit), None))
    case Arming => (g.(arming := true), Answer(None, None))
    case PointAt(c) =>
      if g.pending then (Gate(g.target, false, false), Answer(None, Some(c)))
      else (Gate(Some(c), false, false), Answer(None, None))
    case Release => (Idle(), Answer(None, None))
  }

  class SigintState<C> {
    var target: Option<C>
    var arming: bool
    var pending: bool

    ghost function View(): Gate<C>
      reads this
    {
      Gate(target, arming, pending)
    }

    constructor ()
      ensures View() == Idle()
    {
      target, arming, pending := None, false, false;
    }

    method OnSignal() returns (action: Action, canceller: Option<C>)
      modifies this
      ensures (View(), Answer(Some(action), canceller)) == Next(old(View()), Signal)
    {
      if target.Some? {
        action, canceller := Cancel, target;
        target := None;
        return;
      }
      if arming {
        pending := true;
        return Defer, None;
      }
      return Exit, None;
    }

    method StartArming()
      modifies this
      ensures View() == Next(old(View()), Arming).0
    {
      arming := true;
    }

    method PointAtTask(canceller: C) returns (now: Option<C>)
      modifies this
      ensures (View(), Answer(None, now)) == Next(old(View()), PointAt(canceller))
    {
      arming := false;
      var was := pending;
      pending := false;
      if was {
        return Some(canceller);
      }
      target := Some(canceller);
      return None;
    }

    method ReleaseTask()
      modifies this
      ensures View() == Next(old(View()), Release).0
    {
      target := None;
      arming := false;
      pending := false;
    }

    /** Any one operation, with what it answers. */
    method Perform(op: Op<C>) returns (answer: Answer<C>)
      modifies this
      ensures (View(), answer) == Next(old(View()), op)
    {
      match op {
        case Signal =>
          var action, canceller := OnSignal();
          answer := Answer(Some(action), canceller);
        case Arming =>
          StartArming();
          answer := Answer(None, None);
        case PointAt(c) =>
          var now := PointAtTask(c);
          answer := Answer(None, now);
        case Release =>
          ReleaseTask();
          answer := Answer(None, None);
      }
    }
  }

  // ----- every run of the gate -----

  /** The gate after these operations, from its default state. */
  function After<C>(ops: seq<Op<C>>): Gate<C> {
    if ops == [] then Idle() else Next(After(ops[..|ops| - 1]), ops[|ops| - 1]).0
  }

  /** What the `i`-th operation of the run answers. */
  function AnswerAt<C>(ops: seq<Op<C>>, i: nat): Answer<C>
    requires i < |ops|
  {
    Next(After(ops[..i]), ops[i]).1
  }

  /** A signal is parked only while a task is being born. */
  lemma {:induction false} PendingImpliesArming<C>(ops: seq<Op<C>>)
    ensures After(ops).pending ==> After(ops).arming
  {
    if ops != [] {
      PendingImpliesArming(ops[..|ops| - 1]);
    }
  }

  /** A task is being born: an `Arming` was not followed by `PointAt` or `Release`. */
  ghost predicate BeingBorn<C>(ops: seq<Op<C>>) {
    exists i :: 0 <= i < |ops| && ops[i] == Arming && Undisturbed(ops, i + 1)
  }

  /** No operation from `i` on ends the birth. */
  ghost predicate Undisturbed<C>(ops: seq<Op<C>>, i: nat) {
    forall j :: i <= j < |ops| ==> !ops[j].PointAt? && !ops[j].Release?
  }

  /** A signal was parked for that birth. */
  ghost predicate Parked<C>(ops: seq<Op<C>>) {
    exists i :: 0 <= i < |ops| && ParkedAt(ops, i) && Undisturbed(ops, i + 1)
  }

  predicate ParkedAt<C(==)>(ops: seq<Op<C>>, i: nat)
    requires i < |ops|
  {
    ops[i] == Signal && AnswerAt(ops, i).action == Some(Defer)
  }

  lemma PrefixAnswers<C>(ops: seq<Op<C>>, i: nat)
    requires i + 1 < |ops|
    ensures ParkedAt(ops[..|ops| - 1], i) <==> ParkedAt(ops, i)
  {
    assert ops[..|ops| - 1][..i] == ops[..i];
  }

  /** Parked now: parked by the last operation, or before it and not ended by it. */
  lemma ParkedStep<C>(ops: seq<Op<C>>)
    requires ops != []
    ensures var n := |ops| - 1;
            Parked(ops) <==> ParkedAt(ops, n) || (Parked(ops[..n]) && Undisturbed(ops, n))
  {
    hide ParkedAt;
    var n, before := |ops| - 1, ops[..|ops| - 1];
    if Parked(before) && Undisturbed(ops, n) {
      var i :| 0 <= i < |before| && ParkedAt(before, i) && Undisturbed(before, i + 1);
      PrefixAnswers(ops, i);
      assert ParkedAt(ops, i) && Undisturbed(ops, i + 1);
    }
    if Parked(ops) && !ParkedAt(ops, n) {
      var i :| 0 <= i < |ops| && ParkedAt(ops, i) && Undisturbed(ops, i + 1);
      PrefixAnswers(ops, i);
      assert ParkedAt(before, i) && Undisturbed(before, i + 1);
    }
    if ParkedAt(ops, n) {
      assert Undisturbed(ops, n + 1);
    }
  }

  /** The `arming` flag means exactly that a task is being born. */
  lemma {:induction false} ArmingMeansBeingBorn<C>(ops: seq<Op<C>>)
    ensures After(ops).arming <==> BeingBorn(ops)
  {
    if ops != [] {
      var n := |ops| - 1;
      var before := ops[..n];
      ArmingMeansBeingBorn(before);
      if BeingBorn(before) && !ops[n].PointAt? && !ops[n].Release? {
        var i :| 0 <= i < |before| && before[i] == Arming && Undisturbed(before, i + 1);
        assert ops[i] == Arming && Undisturbed(ops, i + 1);
      }
      if BeingBorn(ops) && ops[n] != Arming {
        var i :| 0 <= i < |ops| && ops[i] == Arming && Undisturbed(ops, i + 1);
        assert before[i] == Arming && Undisturbed(before, i + 1);
      }
      if ops[n] == Arming {
        assert Undisturbed(ops, n + 1);
      }
    }
  }

  /** The `pending` flag means exactly that a signal was parked and its task is still to come. */
  lemma {:induction false} PendingMeansParked<C>(ops: seq<Op<C>>)
    ensures After(ops).pending <==> Parked(ops)
  {
    if ops != [] {
      hide Parked;
      PendingMeansParked(ops[..|ops| - 1]);
      ParkedStep(ops);
    }
  }

  /** The process never exits while a task is being born, nor while one is alive. */
  lemma NoExitWhileBeingBorn<C>(ops: seq<Op<C>>, i: nat)
    requires i < |ops| && ops[i] == Signal
    ensures AnswerAt(ops, i).action == Some(Exit) <==>
            !BeingBorn(ops[..i]) && After(ops[..i]).target.None?
    ensures AnswerAt(ops, i).action == Some(Cancel) <==> After(ops[..i]).target.Some?
  {
    ArmingMeansBeingBorn(ops[..i]);
  }

  /**
    No lost interrupt: the task that a `PointAt` introduces is cancelled on the spot if and
    only if a signal was parked since its birth began and nothing released it in between.
   */
  lemma ParkedSignalCancels<C>(ops: seq<Op<C>>, j: nat)
    requires j < |ops| && ops[j].PointAt?
    ensures AnswerAt(ops, j).handed == Some(ops[j].canceller) <==> Parked(ops[..j])
    ensures !Parked(ops[..j]) ==> After(ops[..j + 1]).target == Some(ops[j].canceller)
  {
    PendingMeansParked(ops[..j]);
    assert ops[..j + 1][..j] == ops[..j];
  }

  /** How often `c` was introduced, and how often it was handed out. */
  function Introduced<C(==)>(ops: seq<Op<C>>, c: C): nat {
    if ops == [] then 0
    else Introduced(ops[..|ops| - 1], c) + (if ops[|ops| - 1] == PointAt(c) then 1 else 0)
  }

  function HandedOut<C(==)>(ops: seq<Op<C>>, c: C): nat {
    if ops == [] then 0
    else
      HandedOut(ops[..|ops| - 1], c) +
      (if Next(After(ops[..|ops| - 1]), ops[|ops| - 1]).1.handed == Some(c) then 1 else 0)
  }

  /** Each canceller is handed out at most once per introduction; one still held has not been. */
  lemma {:induction false} HandedOutAtMostOnce<C>(ops: seq<Op<C>>, c: C)
    ensures HandedOut(ops, c) + (if After(ops).target == Some(c) then 1 else 0) <= Introduced(ops, c)
  {
    if ops != [] {
      HandedOutAtMostOnce(ops[..|ops| - 1], c);
    }
  }

  /** Any run, played on the gate itself: it ends where the run does and answers what it answers. */
  method Drive<C(==)>(ops: seq<Op<C>>) returns (gate: SigintState<C>, answers: seq<Answer<C>>)
    ensures fresh(gate) && gate.View() == After(ops)
    ensures |answers| == |ops|
    ensures forall i :: 0 <= i < |ops| ==> answers[i] == AnswerAt(ops, i)
  {
    hide Next;
    gate := new SigintState();
    answers := [];
    for i := 0 to |ops|
      invariant fresh(gate) && gate.View() == After(ops[..i])
      invariant |answers| == i
      invariant forall j :: 0 <= j < i ==> answers[j] == AnswerAt(ops, j)
    {
      assert ops[..i + 1][..i] == ops[..i];
      var answer := gate.Perform(ops[i]);
      answers := answers + [answer];
    }
    assert ops[..|ops|] == ops;
  }

  // ----- whose canceller a signal hands out -----

  /** `c` was the last one pointed at, was kept, and nothing but an arming came since. */
  ghost predicate Aimed<C>(ops: seq<Op<C>>, c: C) {
    exists j :: 0 <= j < |ops| && AimedAt(ops, c, j)
  }

  ghost predicate AimedAt<C>(ops: seq<Op<C>>, c: C, j: nat)
    requires j < |ops|
  {
    && ops[j] == PointAt(c)
    && !Parked(ops[..j])
    && forall k :: j < k < |ops| ==> ops[k] == Arming
  }

  lemma {:induction false} PendingMeansNoTarget<C>(ops: seq<Op<C>>)
    ensures After(ops).pending ==> After(ops).target.None?
  {
    if ops != [] {
      PendingMeansNoTarget(ops[..|ops| - 1]);
    }
  }

  lemma AimedStep<C>(ops: seq<Op<C>>, c: C)
    requires ops != []
    ensures var n := |ops| - 1;
            Aimed(ops, c) <==>
              || (ops[n] == PointAt(c) && !Parked(ops[..n]))
              || (ops[n] == Arming && Aimed(ops[..n], c))
  {
    hide Parked;
    var n, before := |ops| - 1, ops[..|ops| - 1];
    if ops[n] == PointAt(c) && !Parked(before) {
      assert AimedAt(ops, c, n);
    }
    if ops[n] == Arming && Aimed(before, c) {
      var j :| 0 <= j < |before| && AimedAt(before, c, j);
      assert before[..j] == ops[..j];
      assert AimedAt(ops, c, j);
    }
    if j :| 0 <= j < |ops| && AimedAt(ops, c, j) {
      if j < n {
        assert before[..j] == ops[..j];
        assert AimedAt(before, c, j);
      }
    }
  }

  /** The gate's target is exactly the last canceller pointed at and neither handed out nor released since. */
  lemma {:induction false} TargetMeansAimed<C>(ops: seq<Op<C>>, c: C)
    ensures After(ops).target == Some(c) <==> Aimed(ops, c)
  {
    if ops != [] {
      hide Aimed, Parked;
      var before := ops[..|ops| - 1];
      TargetMeansAimed(before, c);
      AimedStep(ops, c);
      PendingMeansParked(before);
      PendingMeansNoTarget(before);
    }
  }

  /** A signal hands out exactly the canceller aimed at, and says `Cancel` exactly when there is one. */
  lemma SignalHandsOutTheTarget<C>(ops: seq<Op<C>>, i: nat, c: C)
    requires i < |ops| && ops[i] == Signal
    ensures AnswerAt(ops, i).handed == Some(c) <==> Aimed(ops[..i], c)
    ensures AnswerAt(ops, i).action == Some(Cancel) <==> AnswerAt(ops, i).handed.Some?
  {
    hide Aimed;
    TargetMeansAimed(ops[..i], c);
  }
}
