/**
  The RPC client's pending table: callers that register, check the closed flag, send and
  wait, against one reader that resolves, sets the flag and clears the table. Each action
  below is one atomic section of the code; a run interleaves them in any order. Request ids
  are 64-bit and wrap.
 */
module Rpc {
  import opened Proto

  const ID_SPACE: nat := 0x1_0000_0000_0000_0000

  /** A oneshot channel, seen from its receiver. */
  datatype Channel<+M> = Open | Sent(message: M) | Dropped

  datatype CallResult<+M> = Answered(message: M) | ConnectionClosed | NotEncoded | Abandoned

  /** Where a call stands in `call_tracked`. */
  datatype Phase<+M> =
    | Allocated            // has its id, not yet in the table
    | Inserted             // in the table, flag not yet looked at
    | PastCheck            // saw the flag down, has not sent yet
    | Waiting              // sent, waiting on its channel
    | Leaving              // saw the connection dead, about to take itself out
    | Done(result: CallResult<M>)

  datatype Call<+M> = Call(id: nat, phase: Phase<M>, channel: Channel<M>)

  datatype Reader<+M> =
    | Reading
    | Holding(call: nat, message: M) // took a waiter out of the table, has not sent to it yet
    | FlagSet                        // set the flag, has not cleared the table yet
    | Stopped

  /** `calls` are all calls ever started, in order; `pending` maps an id to one of them. */
  datatype State<+M> = State(
    calls: seq<Call<M>>,
    pending: map<nat, nat>,
    closed: bool,
    nextId: nat,
    reader: Reader<M>,
    responses: seq<(nat, M)>) // every response read, with its id

  // ----- the actions -----

  datatype Action<+M> =
    | Start
    | Insert(c: nat)
    | Check(c: nat)
    | EncodeFails(c: nat)
    | Send(c: nat)
    | SendFails(c: nat)
    | Leave(c: nat)
    | Receive(c: nat)
    | Abandon(c: nat)
    | Take(id: nat, message: M)
    | Deliver
    | SetFlag
    | Clear

  function WithPhase<M>(s: State<M>, c: nat, phase: Phase<M>): State<M>
    requires c < |s.calls|
  {
    s.(calls := s.calls[c := s.calls[c].(phase := phase)])
  }

  /** The sender registered under `id`, if any, is dropped: its receiver wakes with an error. */
  function DropSender<M>(s: State<M>, id: nat): State<M>
    requires forall i :: i in s.pending ==> s.pending[i] < |s.calls|
  {
    if id !in s.pending then s
    else
      var c := s.pending[id];
      s.(pending := s.pending - {id}, calls := s.calls[c := s.calls[c].(channel := Dropped)])
  }

  /** Every sender still in the table is dropped. */
  function DropAll<M>(s: State<M>): State<M> {
    s.(pending := map[],
       calls := seq(|s.calls|, i requires 0 <= i < |s.calls| =>
                     if s.calls[i].id in s.pending && s.pending[s.calls[i].id] == i
                     then s.calls[i].(channel := Dropped) else s.calls[i]))
  }

  predicate Enabled<M(==)>(s: State<M>, a: Action<M>) {
    match a
    case Start => true
    case Insert(c) => c < |s.calls| && s.calls[c].phase == Allocated
    case Check(c) => c < |s.calls| && s.calls[c].phase == Inserted
    case EncodeFails(c) => c < |s.calls| && s.calls[c].phase in {Allocated, PastCheck}
    case Send(c) => c < |s.calls| && s.calls[c].phase == PastCheck
    case SendFails(c) => c < |s.calls| && s.calls[c].phase == PastCheck
    case Leave(c) => c < |s.calls| && s.calls[c].phase == Leaving
    case Receive(c) => c < |s.calls| && s.calls[c].phase == Waiting && s.calls[c].channel != Open
    case Abandon(c) => c < |s.calls| && s.calls[c].phase == Waiting
    case Take(_, _) => s.reader == Reading
    case Deliver => s.reader.Holding? && s.reader.call < |s.calls|
    case SetFlag => s.reader == Reading
    case Clear => s.reader == FlagSet
  }

  predicate InRange<M>(s: State<M>) {
    forall i :: i in s.pending ==> s.pending[i] < |s.calls|
  }

  function Apply<M(==)>(s: State<M>, a: Action<M>): State<M>
    requires InRange(s) && Enabled(s, a)
  {
    match a
    case Start =>
      s.(calls := s.calls + [Call(s.nextId, Allocated, Open)], nextId := (s.nextId + 1) % ID_SPACE)
    case Insert(c) =>
      var t := WithPhase(DropSender(s, s.calls[c].id), c, Inserted);
      t.(pending := t.pending[s.calls[c].id := c])
    case Check(c) => WithPhase(s, c, if s.closed then Leaving else PastCheck)
    case EncodeFails(c) => WithPhase(s, c, Done(NotEncoded))
    case Send(c) => WithPhase(s, c, Waiting)
    case SendFails(c) => WithPhase(s, c, Leaving)
    case Leave(c) => WithPhase(DropSender(s, s.calls[c].id), c, Done(ConnectionClosed))
    case Receive(c) =>
      WithPhase(s, c, Done(match s.calls[c].channel
                           case Sent(m) => Answered(m)
                           case _ => ConnectionClosed))
    case Abandon(c) => WithPhase(s, c, Done(Abandoned))
    case Take(id, m) =>
      var t := s.(responses := s.responses + [(id, m)]);
      if id in s.pending then t.(pending := s.pending - {id}, reader := Holding(s.pending[id], m)) else t
    case Deliver =>
      var c := s.reader.call;
      s.(reader := Reading, calls := s.calls[c := s.calls[c].(channel := Sent(s.reader.message))])
    case SetFlag => s.(closed := true, reader := FlagSet)
    case Clear => DropAll(s).(reader := Stopped)
  }

  function Initial<M>(): State<M> {
    State([], map[], false, 1, Reading, [])
  }

  /** The state after a run of actions, if each was enabled in its turn. */
  function After<M(==)>(actions: seq<Action<M>>): Option<State<M>> {
    if actions == [] then Some(Initial())
    else
      match After(actions[..|actions| - 1])
      case None => None
      case Some(s) =>
        if InRange(s) && Enabled(s, actions[|actions| - 1]) then Some(Apply(s, actions[|actions| - 1])) else None
  }

  // ----- the invariant -----

  /** The call has put itself in the table at some point and is not done. */
  predicate InFlight<M>(call: Call<M>) {
    call.phase.Inserted? || call.phase.PastCheck? || call.phase.Waiting? || call.phase.Leaving?
  }

  /** Who can still wake this call: the table, or the reader that took it out. */
  predicate Reachable<M>(s: State<M>, c: nat)
    requires c < |s.calls|
  {
    || (s.calls[c].id in s.pending && s.pending[s.calls[c].id] == c)
    || (s.reader.Holding? && s.reader.call == c)
  }

  ghost predicate TableSound<M>(s: State<M>) {
    forall i :: i in s.pending ==>
      && s.pending[i] < |s.calls|
      && s.calls[s.pending[i]].id == i
      && s.calls[s.pending[i]].channel == Open
      && s.calls[s.pending[i]].phase != Allocated
      && !(s.reader.Holding? && s.reader.call == s.pending[i])
  }

  /** A call whose channel is still open is still known to somebody. */
  ghost predicate NobodyForgotten<M>(s: State<M>) {
    forall c :: 0 <= c < |s.calls| && InFlight(s.calls[c]) && s.calls[c].channel == Open ==> Reachable(s, c)
  }

  ghost predicate ReaderSound<M>(s: State<M>) {
    && (s.closed <==> s.reader.FlagSet? || s.reader.Stopped?)
    && (s.reader.Holding? ==>
          && s.reader.call < |s.calls|
          && s.calls[s.reader.call].channel == Open
          && s.calls[s.reader.call].phase != Allocated
          && (s.calls[s.reader.call].id, s.reader.message) in s.responses)
  }

  /** Once the table is cleared, only calls that have not looked at the flag, or saw it, are in it. */
  ghost predicate NoLateRegistration<M>(s: State<M>) {
    s.reader.Stopped? ==>
      forall i :: i in s.pending ==>
        s.pending[i] < |s.calls| &&
        (s.calls[s.pending[i]].phase.Inserted? || s.calls[s.pending[i]].phase.Leaving?)
  }

  /** Whatever a call is answered with was read from the wire under its id. */
  ghost predicate AnswersMatch<M>(s: State<M>) {
    forall c :: 0 <= c < |s.calls| ==>
      && (s.calls[c].channel.Sent? ==> (s.calls[c].id, s.calls[c].channel.message) in s.responses)
      && (s.calls[c].phase.Done? && s.calls[c].phase.result.Answered? ==>
            s.calls[c].channel == Sent(s.calls[c].phase.result.message))
      && (s.calls[c].phase.Allocated? ==> s.calls[c].channel == Open)
  }

  /** Ids are handed out in order and wrap. */
  ghost predicate IdsInOrder<M>(s: State<M>) {
    && s.nextId == (1 + |s.calls|) % ID_SPACE
    && forall c :: 0 <= c < |s.calls| ==> s.calls[c].id == (1 + c) % ID_SPACE
  }

  ghost predicate Inv<M>(s: State<M>) {
    && TableSound(s)
    && NobodyForgotten(s)
    && ReaderSound(s)
    && NoLateRegistration(s)
    && AnswersMatch(s)
    && IdsInOrder(s)
  }

  lemma DropSenderKeeps<M>(s: State<M>, id: nat)
    requires Inv(s)
    ensures Inv(DropSender(s, id)) && id !in DropSender(s, id).pending
    ensures |DropSender(s, id).calls| == |s.calls|
    ensures forall c :: 0 <= c < |s.calls| ==>
              && DropSender(s, id).calls[c].phase == s.calls[c].phase
              && DropSender(s, id).calls[c].id == s.calls[c].id
  {
  }

  /** Moving one call along keeps everything, if the move is one `call_tracked` can make. */
  lemma PhaseKeeps<M>(s: State<M>, c: nat, phase: Phase<M>)
    requires Inv(s) && c < |s.calls| && phase != Allocated
    requires InFlight(Call(0, phase, Open)) ==> InFlight(s.calls[c])
    requires phase.Done? && phase.result.Answered? ==> s.calls[c].channel == Sent(phase.result.message)
    requires s.reader.Stopped? && s.calls[c].id in s.pending && s.pending[s.calls[c].id] == c ==>
               phase.Inserted? || phase.Leaving?
    ensures Inv(WithPhase(s, c, phase))
  {
  }

  lemma RegisterKeeps<M>(s: State<M>, c: nat)
    requires Inv(s) && c < |s.calls| && s.calls[c].phase.Allocated? && s.calls[c].id !in s.pending
    ensures var t := WithPhase(s, c, Inserted);
            Inv(t.(pending := t.pending[s.calls[c].id := c]))
  {
  }

  lemma StartKeeps<M>(s: State<M>)
    requires Inv(s)
    ensures Inv(Apply(s, Start))
  {
    var n := |s.calls|;
    assert (1 + n + 1) % ID_SPACE == ((1 + n) % ID_SPACE + 1) % ID_SPACE;
  }

  lemma TakeKeeps<M>(s: State<M>, id: nat, m: M)
    requires Inv(s) && s.reader == Reading
    ensures Inv(Apply(s, Take(id, m)))
  {
    assert forall r :: r in s.responses ==> r in s.responses + [(id, m)];
  }

  lemma DeliverKeeps<M>(s: State<M>)
    requires Inv(s) && s.reader.Holding?
    ensures Inv(Apply(s, Deliver))
  {
  }

  lemma ClearKeeps<M>(s: State<M>)
    requires Inv(s) && s.reader == FlagSet
    ensures Inv(Apply(s, Clear))
  {
  }

  /** Every action of every caller and of the reader keeps the invariant. */
  lemma ActionKeeps<M>(s: State<M>, a: Action<M>)
    requires Inv(s) && InRange(s) && Enabled(s, a)
    ensures Inv(Apply(s, a))
  {
    match a
    case Start => StartKeeps(s);
    case Insert(c) =>
      hide Inv;
      DropSenderKeeps(s, s.calls[c].id);
      RegisterKeeps(DropSender(s, s.calls[c].id), c);
    case Leave(c) =>
      DropSenderKeeps(s, s.calls[c].id);
      PhaseKeeps(DropSender(s, s.calls[c].id), c, Done(ConnectionClosed));
    case Take(id, m) => TakeKeeps(s, id, m);
    case Deliver => DeliverKeeps(s);
    case SetFlag =>
    case Clear => ClearKeeps(s);
    case Check(c) => PhaseKeeps(s, c, if s.closed then Leaving else PastCheck);
    case EncodeFails(c) => PhaseKeeps(s, c, Done(NotEncoded));
    case Send(c) => PhaseKeeps(s, c, Waiting);
    case SendFails(c) => PhaseKeeps(s, c, Leaving);
    case Receive(c) =>
      PhaseKeeps(s, c, Done(match s.calls[c].channel case Sent(m) => Answered(m) case _ => ConnectionClosed));
    case Abandon(c) => PhaseKeeps(s, c, Done(Abandoned));
  }

  lemma {:induction false} EveryRunKeepsInv<M>(actions: seq<Action<M>>)
    ensures After(actions).Some? ==> Inv(After(actions).value)
  {
    if actions != [] {
      hide Inv, Apply, Enabled, InRange;
      var n := |actions| - 1;
      EveryRunKeepsInv(actions[..n]);
      var before := After(actions[..n]);
      if before.Some? && InRange(before.value) && Enabled(before.value, actions[n]) {
        ActionKeeps(before.value, actions[n]);
      }
    } else {
      InitialInv<M>();
    }
  }

  lemma InitialInv<M>()
    ensures Inv(Initial<M>())
  {
  }

  // ----- what the design promises -----

  /** Some action of call `c` itself is enabled. */
  ghost predicate CanMove<M>(s: State<M>, c: nat) {
    || Enabled(s, Insert(c)) || Enabled(s, Check(c)) || Enabled(s, Send(c))
    || Enabled(s, Leave(c)) || Enabled(s, Receive(c))
  }

  /**
    No caller hangs after close: in every interleaving, once the reader has set the flag and
    cleared the table, no call past its flag check is registered, every waiting call's channel
    has something to wake it, and every call that is not done can move by itself.
   */
  lemma NoCallerHangs<M>(actions: seq<Action<M>>)
    requires After(actions).Some? && After(actions).value.reader.Stopped?
    ensures var s := After(actions).value;
            && (forall i :: i in s.pending ==>
                  s.pending[i] < |s.calls| && s.calls[s.pending[i]].phase !in {PastCheck, Waiting})
            && (forall c :: 0 <= c < |s.calls| && s.calls[c].phase.Waiting? ==> s.calls[c].channel != Open)
            && (forall c :: 0 <= c < |s.calls| && !s.calls[c].phase.Done? ==> CanMove(s, c))
  {
    hide After, Apply;
    EveryRunKeepsInv(actions);
    var s := After(actions).value;
    forall c | 0 <= c < |s.calls| && !s.calls[c].phase.Done?
      ensures CanMove(s, c)
      ensures s.calls[c].phase.Waiting? ==> s.calls[c].channel != Open
    {
      assert s.calls[c].phase.Waiting? && s.calls[c].channel == Open ==> Reachable(s, c);
    }
  }

  // ----- and each call is done after at most four moves of its own -----

  /** How many moves a call has left at most. */
  function MovesLeft<M>(phase: Phase<M>): nat {
    match phase
    case Allocated => 4
    case Inserted => 3
    case PastCheck => 2
    case Waiting => 1
    case Leaving => 1
    case Done(_) => 0
  }

  predicate MoveOf<M>(a: Action<M>, c: nat) {
    match a
    case Insert(d) => c == d
    case Check(d) => c == d
    case EncodeFails(d) => c == d
    case Send(d) => c == d
    case SendFails(d) => c == d
    case Leave(d) => c == d
    case Receive(d) => c == d
    case Abandon(d) => c == d
    case _ => false
  }

  /** How many moves of the run are call `c`'s own. */
  function OwnMoves<M>(actions: seq<Action<M>>, c: nat): nat {
    if actions == [] then 0
    else OwnMoves(actions[..|actions| - 1], c) + (if MoveOf(actions[|actions| - 1], c) then 1 else 0)
  }

  /** A call's own moves use up what it has left; nobody else's give it more or take it back. */
  lemma OneMove<M>(s: State<M>, a: Action<M>, c: nat)
    requires InRange(s) && Enabled(s, a)
    ensures |s.calls| <= |Apply(s, a).calls|
    ensures c < |s.calls| ==>
              if MoveOf(a, c) then MovesLeft(Apply(s, a).calls[c].phase) < MovesLeft(s.calls[c].phase)
              else Apply(s, a).calls[c].phase == s.calls[c].phase
    ensures c >= |s.calls| ==> !MoveOf(a, c) && (c < |Apply(s, a).calls| ==> Apply(s, a).calls[c].phase == Allocated)
    ensures s.reader.Stopped? ==> Apply(s, a).reader.Stopped?
  {
  }

  /** Over every run: a call's own moves and those it has left never exceed four. */
  lemma {:induction false} FourMovesAtMost<M>(actions: seq<Action<M>>, c: nat)
    requires After(actions).Some?
    ensures OwnMoves(actions, c) <= 4
    ensures var s := After(actions).value;
            if c < |s.calls| then OwnMoves(actions, c) + MovesLeft(s.calls[c].phase) <= 4
            else OwnMoves(actions, c) == 0
  {
    if actions != [] {
      hide Apply, Enabled, InRange;
      var n := |actions| - 1;
      FourMovesAtMost(actions[..n], c);
      OneMove(After(actions[..n]).value, actions[n], c);
    }
  }

  // ----- after the flag -----

  /** What is left of a run but its end is a run. */
  lemma {:induction false} PrefixRuns<M>(actions: seq<Action<M>>, k: nat)
    requires After(actions).Some? && k <= |actions|
    ensures After(actions[..k]).Some?
  {
    if k < |actions| {
      hide Apply, Enabled, InRange;
      PrefixRuns(actions[..|actions| - 1], k);
      assert actions[..|actions| - 1][..k] == actions[..k];
    } else {
      assert actions[..k] == actions;
    }
  }

  lemma FlagIsNeverLowered<M>(s: State<M>, a: Action<M>)
    requires InRange(s) && Enabled(s, a)
    ensures Apply(s, a).closed <==> s.closed || a == SetFlag
  {
  }

  lemma {:induction false} FlagStays<M>(actions: seq<Action<M>>, i: nat)
    requires After(actions).Some? && i < |actions| && actions[i] == SetFlag
    ensures After(actions).value.closed
  {
    hide Apply, Enabled, InRange;
    var n := |actions| - 1;
    FlagIsNeverLowered(After(actions[..n]).value, actions[n]);
    if i < n {
      FlagStays(actions[..n], i);
    }
  }

  /** The call has seen the connection dead: it is on its way out, or out. */
  predicate TurnedAway<M(==)>(s: State<M>, c: nat) {
    c < |s.calls| && s.calls[c].phase in {Leaving, Done(ConnectionClosed)}
  }

  lemma TurnedAwayStays<M>(s: State<M>, a: Action<M>, c: nat)
    requires InRange(s) && Enabled(s, a)
    requires TurnedAway(s, c) || (a == Check(c) && s.closed)
    ensures TurnedAway(Apply(s, a), c)
  {
    hide Apply;
    OneMove(s, a, c);
    if MoveOf(a, c) {
      OwnMoveOut(s, a, c);
    }
  }

  lemma OwnMoveOut<M>(s: State<M>, a: Action<M>, c: nat)
    requires InRange(s) && Enabled(s, a) && MoveOf(a, c)
    requires TurnedAway(s, c) || (a == Check(c) && s.closed)
    ensures TurnedAway(Apply(s, a), c)
  {
  }

  /**
    Over every run: a call that looks at the flag after the reader set it never sends and
    never waits. From then on it is leaving, or done with the connection closed.
   */
  lemma {:induction false} ClosedMeansClosed<M>(actions: seq<Action<M>>, i: nat, j: nat, c: nat)
    requires After(actions).Some?
    requires i < j < |actions| && actions[i] == SetFlag && actions[j] == Check(c)
    ensures TurnedAway(After(actions).value, c)
  {
    hide Apply, Enabled, InRange, TurnedAway;
    var n := |actions| - 1;
    if j == n {
      FlagStays(actions[..n], i);
    } else {
      ClosedMeansClosed(actions[..n], i, j, c);
    }
    TurnedAwayStays(After(actions[..n]).value, actions[n], c);
  }

  /** The same said of every moment of the run: never past the check, never waiting. */
  lemma NeverPastTheCheck<M>(actions: seq<Action<M>>, i: nat, j: nat, c: nat, k: nat)
    requires After(actions).Some?
    requires i < j < k <= |actions| && actions[i] == SetFlag && actions[j] == Check(c)
    ensures After(actions[..k]).Some? && TurnedAway(After(actions[..k]).value, c)
  {
    hide After, TurnedAway;
    PrefixRuns(actions, k);
    ClosedMeansClosed(actions[..k], i, j, c);
  }

  /** A response is matched by its id: whatever answered a call was read under that call's id. */
  lemma ResponsesMatchIds<M>(actions: seq<Action<M>>, c: nat)
    requires After(actions).Some? && c < |After(actions).value.calls|
    requires After(actions).value.calls[c].phase.Done? && After(actions).value.calls[c].phase.result.Answered?
    ensures var s := After(actions).value;
            (s.calls[c].id, s.calls[c].phase.result.message) in s.responses
  {
    hide After, Apply;
    EveryRunKeepsInv(actions);
  }

  /** Among at most 2^64 calls no two share an id, so a response can only mean one of them. */
  lemma IdsAreUnique<M>(actions: seq<Action<M>>, c: nat, d: nat)
    requires After(actions).Some?
    requires c < d < |After(actions).value.calls| <= ID_SPACE
    ensures After(actions).value.calls[c].id != After(actions).value.calls[d].id
  {
    hide After, Apply;
    EveryRunKeepsInv(actions);
    if d == ID_SPACE - 1 {
      assert (1 + d) % ID_SPACE == 0;
    } else {
      assert (1 + d) % ID_SPACE == 1 + d;
    }
    assert (1 + c) % ID_SPACE == 1 + c;
  }

  /**
    Resolved at most once: no action changes a channel that has already been settled, and
    taking and delivering one response settles at most the one call registered under its id.
   */
  lemma ResolvedAtMostOnce<M>(s: State<M>, a: Action<M>, c: nat)
    requires Inv(s) && InRange(s) && Enabled(s, a) && c < |s.calls|
    ensures c < |Apply(s, a).calls|
    ensures s.calls[c].channel != Open ==> Apply(s, a).calls[c].channel == s.calls[c].channel
    ensures s.calls[c].channel == Open && Apply(s, a).calls[c].channel.Sent? ==>
              a == Deliver && s.reader == Holding(c, Apply(s, a).calls[c].channel.message)
    ensures a.Take? && Apply(s, a).reader == Holding(c, a.message) ==>
              s.calls[c].id == a.id && c !in Apply(s, a).pending.Values
  {
    if a.Take? && a.id in s.pending && s.pending[a.id] == c {
      forall i | i in s.pending && i != a.id
        ensures s.pending[i] != c
      {
      }
    }
  }

  // ----- a response reaches its call -----

  /** One action more. */
  lemma AfterOneMore<M>(actions: seq<Action<M>>, a: Action<M>)
    requires After(actions).Some? && InRange(After(actions).value) && Enabled(After(actions).value, a)
    ensures After(actions + [a]) == Some(Apply(After(actions).value, a))
  {
    hide Apply, Enabled, InRange;
    var more := actions + [a];
    assert more[..|more| - 1] == actions && more[|more| - 1] == a;
  }

  lemma InvInRange<M>(s: State<M>)
    requires Inv(s)
    ensures InRange(s)
  {
  }

  lemma TakeAndDeliver<M>(s: State<M>, id: nat, m: M, c: nat)
    requires Inv(s) && InRange(s) && s.reader == Reading && id in s.pending && s.pending[id] == c
    ensures Enabled(s, Take(id, m))
    ensures var t := Apply(s, Take(id, m));
            InRange(t) && Enabled(t, Deliver) &&
            var u := Apply(t, Deliver);
            && |u.calls| == |s.calls| && c < |s.calls|
            && u.calls[c] == s.calls[c].(channel := Sent(m))
            && (forall d :: 0 <= d < |s.calls| && d != c ==> u.calls[d] == s.calls[d])
            && u.pending == s.pending - {id}
            && u.reader == Reading
  {
  }

  /**
    A response reaches its call: over every run, whoever is registered under its id when the
    reader takes it is sent exactly that message and is registered no more; nobody else notices.
   */
  lemma ResponseReachesItsCall<M>(actions: seq<Action<M>>, id: nat, m: M, c: nat)
    requires After(actions).Some? && After(actions).value.reader == Reading
    requires id in After(actions).value.pending && After(actions).value.pending[id] == c
    ensures var before, after := After(actions).value, After(actions + [Take(id, m)] + [Deliver]);
            && after.Some? && |after.value.calls| == |before.calls| && c < |before.calls|
            && after.value.calls[c] == before.calls[c].(channel := Sent(m))
            && (forall d :: 0 <= d < |before.calls| && d != c ==> after.value.calls[d] == before.calls[d])
            && after.value.pending == before.pending - {id}
  {
    hide After, Apply, Inv, Enabled;
    EveryRunKeepsInv(actions);
    var s := After(actions).value;
    InvInRange(s);
    TakeAndDeliver(s, id, m, c);
    AfterOneMore(actions, Take(id, m));
    AfterOneMore(actions + [Take(id, m)], Deliver);
  }

  /** A response under an id nobody is registered with changes nothing but the record of what was read. */
  lemma UnknownIdIsIgnored<M>(actions: seq<Action<M>>, id: nat, m: M)
    requires After(actions).Some? && After(actions).value.reader == Reading && id !in After(actions).value.pending
    ensures var s := After(actions).value;
            After(actions + [Take(id, m)]) == Some(s.(responses := s.responses + [(id, m)]))
  {
    hide After, Inv;
    EveryRunKeepsInv(actions);
    InvInRange(After(actions).value);
    AfterOneMore(actions, Take(id, m));
  }

  /** Once sent, a message stays in its channel over every continuation of the run. */
  lemma {:induction false} MessageStays<M>(actions: seq<Action<M>>, more: seq<Action<M>>, c: nat, m: M)
    requires After(actions).Some? && c < |After(actions).value.calls| && After(actions).value.calls[c].channel == Sent(m)
    requires After(actions + more).Some?
    ensures c < |After(actions + more).value.calls| && After(actions + more).value.calls[c].channel == Sent(m)
    decreases |more|
  {
    hide Apply, Enabled, InRange, Inv;
    if more == [] {
      assert actions + more == actions;
    } else {
      var n := |more| - 1;
      assert (actions + more)[..|actions + more| - 1] == actions + more[..n];
      MessageStays(actions, more[..n], c, m);
      EveryRunKeepsInv(actions + more[..n]);
      ResolvedAtMostOnce(After(actions + more[..n]).value, more[n], c);
    }
  }

  lemma ReceiveTakesTheMessage<M>(s: State<M>, c: nat, m: M)
    requires InRange(s) && Enabled(s, Receive(c)) && s.calls[c].channel == Sent(m)
    ensures c < |Apply(s, Receive(c)).calls| && Apply(s, Receive(c)).calls[c].phase == Done(Answered(m))
  {
  }

  /** ... and whenever the call receives, however much later, it is answered with that message. */
  lemma ReceivesWhatWasSent<M>(actions: seq<Action<M>>, more: seq<Action<M>>, c: nat, m: M)
    requires After(actions).Some? && c < |After(actions).value.calls| && After(actions).value.calls[c].channel == Sent(m)
    requires After(actions + more + [Receive(c)]).Some?
    ensures var s := After(actions + more + [Receive(c)]).value;
            c < |s.calls| && s.calls[c].phase == Done(Answered(m))
  {
    hide Apply, Enabled, Inv;
    var run := actions + more;
    var all := run + [Receive(c)];
    assert all[..|all| - 1] == run && all[|all| - 1] == Receive(c);
    MessageStays(actions, more, c, m);
    ReceiveTakesTheMessage(After(run).value, c, m);
  }

  // ----- and a call that starts while the connection is up is answered -----

  lemma RegisteredAndSent<M>(s: State<M>)
    requires Inv(s) && InRange(s) && !s.closed
    ensures var c := |s.calls|;
            var s1 := Apply(s, Start);
            InRange(s1) && Enabled(s1, Insert(c)) &&
            var s2 := Apply(s1, Insert(c));
            InRange(s2) && Enabled(s2, Check(c)) &&
            var s3 := Apply(s2, Check(c));
            InRange(s3) && Enabled(s3, Send(c)) &&
            var s4 := Apply(s3, Send(c));
            && s4.reader == s.reader && c < |s4.calls| && s4.calls[c].phase == Waiting
            && s.nextId in s4.pending && s4.pending[s.nextId] == c
  {
  }

  lemma WaitsRegistered<M>(actions: seq<Action<M>>)
    requires After(actions).Some? && !After(actions).value.closed
    ensures var s, c := After(actions).value, |After(actions).value.calls|;
            var t := After(actions + [Start] + [Insert(c)] + [Check(c)] + [Send(c)]);
            && t.Some? && t.value.reader == s.reader && c < |t.value.calls| && t.value.calls[c].phase == Waiting
            && s.nextId in t.value.pending && t.value.pending[s.nextId] == c
  {
    hide After, Apply, Inv, Enabled;
    EveryRunKeepsInv(actions);
    var s, c := After(actions).value, |After(actions).value.calls|;
    InvInRange(s);
    RegisteredAndSent(s);
    StartIsEnabled(s);
    AfterOneMore(actions, Start);
    AfterOneMore(actions + [Start], Insert(c));
    AfterOneMore(actions + [Start] + [Insert(c)], Check(c));
    AfterOneMore(actions + [Start] + [Insert(c)] + [Check(c)], Send(c));
  }

  lemma StartIsEnabled<M>(s: State<M>)
    ensures Enabled(s, Start)
  {
  }

  lemma WokenByItsMessage<M>(s: State<M>, c: nat, m: M)
    requires InRange(s) && c < |s.calls| && s.calls[c].phase == Waiting && s.calls[c].channel == Sent(m)
    ensures Enabled(s, Receive(c)) && c < |Apply(s, Receive(c)).calls|
    ensures Apply(s, Receive(c)).calls[c].phase == Done(Answered(m))
  {
  }

  /**
    The protocol serves its purpose: over every run, a call that starts while the connection
    is up, is sent, and whose response is then read, ends answered with that response.
   */
  lemma CallIsAnswered<M>(actions: seq<Action<M>>, m: M)
    requires After(actions).Some? && !After(actions).value.closed && After(actions).value.reader == Reading
    ensures var id, c := After(actions).value.nextId, |After(actions).value.calls|;
            var t := After(actions + [Start] + [Insert(c)] + [Check(c)] + [Send(c)] + [Take(id, m)] + [Deliver] + [Receive(c)]);
            t.Some? && c < |t.value.calls| && t.value.calls[c].phase == Done(Answered(m)) && id !in t.value.pending
  {
    hide After, Apply, Inv, Enabled;
    var id, c := After(actions).value.nextId, |After(actions).value.calls|;
    WaitsRegistered(actions);
    var sent := actions + [Start] + [Insert(c)] + [Check(c)] + [Send(c)];
    ResponseReachesItsCall(sent, id, m, c);
    var settled := sent + [Take(id, m)] + [Deliver];
    EveryRunKeepsInv(settled);
    InvInRange(After(settled).value);
    WokenByItsMessage(After(settled).value, c, m);
    AfterOneMore(settled, Receive(c));
    ReceiveKeepsTable(After(settled).value, c);
  }

  lemma ReceiveKeepsTable<M>(s: State<M>, c: nat)
    requires InRange(s) && Enabled(s, Receive(c))
    ensures Apply(s, Receive(c)).pending == s.pending
  {
  }

  // ----- how else a call can end -----

  lemma EndsOf<M>(s: State<M>, c: nat)
    requires InRange(s)
    ensures Enabled(s, Abandon(c)) ==>
              Apply(s, Abandon(c)) == s.(calls := s.calls[c := s.calls[c].(phase := Done(Abandoned))])
    ensures Enabled(s, EncodeFails(c)) ==>
              Apply(s, EncodeFails(c)) == s.(calls := s.calls[c := s.calls[c].(phase := Done(NotEncoded))])
    ensures Enabled(s, Receive(c)) && s.calls[c].channel == Dropped ==>
              Apply(s, Receive(c)) == s.(calls := s.calls[c := s.calls[c].(phase := Done(ConnectionClosed))])
  {
  }

  lemma SendFailsAndLeaves<M>(s: State<M>, c: nat)
    requires Inv(s) && InRange(s) && Enabled(s, SendFails(c))
    ensures var t := Apply(s, SendFails(c));
            InRange(t) && Enabled(t, Leave(c)) &&
            var u := Apply(t, Leave(c));
            c < |u.calls| && u.calls[c].phase == Done(ConnectionClosed) && s.calls[c].id !in u.pending
  {
  }

  /**
    The other ends of a call, over every run: dropped by its caller, not encodable, or its
    sender dropped, it is done with just that and nothing else changes; when the frame cannot
    be handed over it takes itself out of the table and reports the connection closed.
   */
  lemma OtherEnds<M>(actions: seq<Action<M>>, c: nat)
    requires After(actions).Some?
    ensures var s := After(actions).value;
            && (Enabled(s, Abandon(c)) ==>
                  After(actions + [Abandon(c)]) == Some(s.(calls := s.calls[c := s.calls[c].(phase := Done(Abandoned))])))
            && (Enabled(s, EncodeFails(c)) ==>
                  After(actions + [EncodeFails(c)]) == Some(s.(calls := s.calls[c := s.calls[c].(phase := Done(NotEncoded))])))
            && (Enabled(s, Receive(c)) && s.calls[c].channel == Dropped ==>
                  After(actions + [Receive(c)]) == Some(s.(calls := s.calls[c := s.calls[c].(phase := Done(ConnectionClosed))])))
            && (Enabled(s, SendFails(c)) ==>
                  var t := After(actions + [SendFails(c)] + [Leave(c)]);
                  t.Some? && c < |t.value.calls| && t.value.calls[c].phase == Done(ConnectionClosed) &&
                  s.calls[c].id !in t.value.pending)
  {
    EveryRunKeepsInv(actions);
    var s := After(actions).value;
    InvInRange(s);
    EndsOf(s, c);
    if Enabled(s, Abandon(c)) {
      AfterOneMore(actions, Abandon(c));
    }
    if Enabled(s, EncodeFails(c)) {
      AfterOneMore(actions, EncodeFails(c));
    }
    if Enabled(s, Receive(c)) {
      AfterOneMore(actions, Receive(c));
    }
    if Enabled(s, SendFails(c)) {
      hide After, Apply, Inv;
      SendFailsAndLeaves(s, c);
      AfterOneMore(actions, SendFails(c));
      AfterOneMore(actions + [SendFails(c)], Leave(c));
    }
  }

  /** An encode error leaves its entry behind: the table is not only live calls. */
  lemma EncodeErrorLeavesItsEntry<M>()
    ensures var s := After<M>([Start, Insert(0), Check(0), EncodeFails(0)]);
            s.Some? && s.value.calls[0].phase == Done(NotEncoded) && s.value.pending == map[1 := 0]
  {
    var a: seq<Action<M>> := [Start, Insert(0), Check(0), EncodeFails(0)];
    assert a[..3] == [Start, Insert(0), Check(0)];
    assert a[..3][..2] == [Start, Insert(0)];
    assert a[..3][..2][..1] == [Start];
    assert a[..3][..2][..1][..0] == [];
    assert After(a[..3][..2][..1]) == Some(Apply(Initial(), Start));
  }

  // ----- the client's shared fields, updated in place -----

  /** The fields the callers and the reader share; each method is one atomic section. */
  class Client<M(==)> {
    var calls: seq<Call<M>>
    var pending: map<nat, nat>
    var closed: bool
    var nextId: nat
    var reader: Reader<M>
    ghost var responses: seq<(nat, M)>

    ghost function View(): State<M>
      reads this
    {
      State(calls, pending, closed, nextId, reader, responses)
    }

    constructor ()
      ensures View() == Initial() && Inv(View())
    {
      calls, pending, closed, nextId := [], map[], false, 1;
      reader, responses := Reading, [];
    }

    /** `fetch_add`: the call gets its id. */
    method Begin() returns (c: nat)
      requires Inv(View())
      modifies this
      ensures View() == Apply(old(View()), Start) && Inv(View())
      ensures c == |old(calls)|
    {
      StartKeeps(View());
      c := |calls|;
      calls := calls + [Call(nextId, Allocated, Open)];
      nextId := (nextId + 1) % ID_SPACE;
    }

    /** Removes whoever is registered under `id`, dropping its sender. */
    method Remove(id: nat)
      requires Inv(View())
      modifies this
      ensures View() == DropSender(old(View()), id) && Inv(View())
    {
      DropSenderKeeps(View(), id);
      if id in pending {
        var c := pending[id];
        calls := calls[c := calls[c].(channel := Dropped)];
        pending := pending - {id};
      }
    }

    /** Puts the call in the table, before it looks at the flag. */
    method Register(c: nat)
      requires Inv(View()) && Enabled(View(), Insert(c))
      modifies this
      ensures View() == Apply(old(View()), Insert(c)) && Inv(View())
    {
      ActionKeeps(View(), Insert(c));
      var id := calls[c].id;
      Remove(id);
      calls := calls[c := calls[c].(phase := Inserted)];
      pending := pending[id := c];
    }

    /** Looks at the flag; a call that sees it up will take itself out. */
    method LookAtFlag(c: nat) returns (dead: bool)
      requires Inv(View()) && Enabled(View(), Check(c))
      modifies this
      ensures View() == Apply(old(View()), Check(c)) && Inv(View())
      ensures dead == closed
    {
      ActionKeeps(View(), Check(c));
      dead := closed;
      calls := calls[c := calls[c].(phase := if dead then Leaving else PastCheck)];
    }

    /** The call takes itself out and reports the connection closed. */
    method TakeItselfOut(c: nat)
      requires Inv(View()) && Enabled(View(), Leave(c))
      modifies this
      ensures View() == Apply(old(View()), Leave(c)) && Inv(View())
    {
      ActionKeeps(View(), Leave(c));
      Remove(calls[c].id);
      calls := calls[c := calls[c].(phase := Done(ConnectionClosed))];
    }

    /** The reader matches a response with the waiter registered under its id. */
    method MatchResponse(id: nat, message: M)
      requires Inv(View()) && Enabled(View(), Take(id, message))
      modifies this
      ensures View() == Apply(old(View()), Take(id, message)) && Inv(View())
    {
      ActionKeeps(View(), Take(id, message));
      responses := responses + [(id, message)];
      if id in pending {
        reader := Holding(pending[id], message);
        pending := pending - {id};
      }
    }

    /** The reader's end: the flag first. */
    method RaiseFlag()
      requires Inv(View()) && Enabled(View(), SetFlag)
      modifies this
      ensures View() == Apply(old(View()), SetFlag) && Inv(View())
    {
      ActionKeeps(View(), SetFlag);
      closed := true;
      reader := FlagSet;
    }

    /** ... then the table, waking everyone who was waiting. */
    method ClearTable()
      requires Inv(View()) && Enabled(View(), Clear)
      modifies this
      ensures View() == Apply(old(View()), Clear) && Inv(View())
    {
      ActionKeeps(View(), Clear);
      ghost var was := View();
      for i := 0 to |calls|
        invariant |calls| == |was.calls|
        invariant View() == was.(calls := calls)
        invariant forall k :: 0 <= k < |calls| ==>
                    calls[k] == if k < i then DropAll(was).calls[k] else was.calls[k]
      {
        if calls[i].id in pending && pending[calls[i].id] == i {
          calls := calls[i := calls[i].(channel := Dropped)];
        }
      }
      pending := map[];
      reader := Stopped;
      assert calls == DropAll(was).calls;
    }

    /** The request does not encode: the call returns, its entry, if any, stays. */
    method FailToEncode(c: nat)
      requires Inv(View()) && Enabled(View(), EncodeFails(c))
      modifies this
      ensures View() == Apply(old(View()), EncodeFails(c)) && Inv(View())
    {
      ActionKeeps(View(), EncodeFails(c));
      calls := calls[c := calls[c].(phase := Done(NotEncoded))];
    }

    /** Hands the frame to the writer, which may be gone. */
    method HandOver(c: nat, gone: bool)
      requires Inv(View()) && Enabled(View(), Send(c))
      modifies this
      ensures View() == Apply(old(View()), if gone then SendFails(c) else Send(c)) && Inv(View())
    {
      ActionKeeps(View(), if gone then SendFails(c) else Send(c));
      calls := calls[c := calls[c].(phase := if gone then Leaving else Waiting)];
    }

    /** The wait is over: an answer, or a dropped sender. */
    method WakeUp(c: nat) returns (result: CallResult<M>)
      requires Inv(View()) && Enabled(View(), Receive(c))
      modifies this
      ensures View() == Apply(old(View()), Receive(c)) && Inv(View())
      ensures calls[c].phase == Done(result)
    {
      ActionKeeps(View(), Receive(c));
      result := match calls[c].channel case Sent(m) => Answered(m) case _ => ConnectionClosed;
      calls := calls[c := calls[c].(phase := Done(result))];
    }

    /** The caller drops the call while it waits. */
    method GiveUp(c: nat)
      requires Inv(View()) && Enabled(View(), Abandon(c))
      modifies this
      ensures View() == Apply(old(View()), Abandon(c)) && Inv(View())
    {
      ActionKeeps(View(), Abandon(c));
      calls := calls[c := calls[c].(phase := Done(Abandoned))];
    }

    /** The reader sends the response to the waiter it took out. */
    method SendToWaiter()
      requires Inv(View()) && Enabled(View(), Deliver)
      modifies this
      ensures View() == Apply(old(View()), Deliver) && Inv(View())
    {
      ActionKeeps(View(), Deliver);
      var c, m := reader.call, reader.message;
      reader := Reading;
      calls := calls[c := calls[c].(channel := Sent(m))];
    }

    /** Any one atomic section. */
    method Perform(a: Action<M>)
      requires Inv(View()) && Enabled(View(), a)
      modifies this
      ensures View() == Apply(old(View()), a) && Inv(View())
    {
      hide Inv, Apply;
      match a {
        case Start => var _ := Begin();
        case Insert(c) => Register(c);
        case Check(c) => var _ := LookAtFlag(c);
        case EncodeFails(c) => FailToEncode(c);
        case Send(c) => HandOver(c, false);
        case SendFails(c) => HandOver(c, true);
        case Leave(c) => TakeItselfOut(c);
        case Receive(c) => var _ := WakeUp(c);
        case Abandon(c) => GiveUp(c);
        case Take(id, m) => MatchResponse(id, m);
        case Deliver => SendToWaiter();
        case SetFlag => RaiseFlag();
        case Clear => ClearTable();
      }
    }
  }

  /** Any interleaving of callers and reader, run on the shared fields, ends in the state it denotes. */
  method Drive<M(==)>(actions: seq<Action<M>>) returns (client: Client<M>)
    requires After(actions).Some?
    ensures fresh(client) && Inv(client.View()) && client.View() == After(actions).value
  {
    hide Inv, Apply, Enabled, InRange;
    client := new Client();
    for i := 0 to |actions|
      invariant fresh(client) && Inv(client.View())
      invariant After(actions[..i]) == Some(client.View())
    {
      PrefixRuns(actions, i + 1);
      assert actions[..i + 1][..i] == actions[..i];
      client.Perform(actions[i]);
    }
    assert actions[..|actions|] == actions;
  }
}
