/**
 What the store's operations keep: over runs without pyramid entries, and under any
 interleaving of all operations, single statements and external writes of fsm_state.
 */
module StoreLaws {
  import opened Core
  import opened Fsm
  import opened TicketStore

  datatype Op =
    | Create(p: TicketParams, now: int)
    | Transition(id: nat, to: TicketState)
    | Close(id: nat, pnl: real, labelingFails: bool, now: int)
    | Open(key: Key)
    | Invalidate(sessionId: nat)
    | AddSymbol(key: Key)
    // Steps of an arbitrary interleaving
    | Pyramid(pyramid: PyramidParams, now: int)
    | SqlInvalidateActive(key: Key)
    | SqlInsertSession(key: Key)
    | SqlMarkWatching(key: Key)
    | SqlMarkInvalidated(sessionId: nat)
    | SqlIdleIfWatching(key: Key)
    | WriteFsm(key: Key, state: FsmState)

  function Step(s: Store, op: Op, maxPyramidCount: nat): Store {
    match op
    case Create(p, now) => After(s, CreateTicket(s, p, now))
    case Transition(id, to) => After(s, TransitionTicket(s, id, to))
    case Close(id, pnl, labelingFails, now) => After(s, CloseTicket(s, id, pnl, labelingFails, now))
    case Open(key) => OpenWatchSession(s, key)
    case Invalidate(sessionId) => InvalidateWatchSession(s, sessionId)
    case AddSymbol(key) => UpsertSymbolState(s, key, None)
    case Pyramid(p, now) => After(s, ExecutePyramid(s, p, maxPyramidCount, now))
    case SqlInvalidateActive(key) => InvalidateActive(s, key)
    case SqlInsertSession(key) => After(s, InsertSession(s, key))
    case SqlMarkWatching(key) => MarkWatching(s, key)
    case SqlMarkInvalidated(sessionId) => MarkInvalidated(s, sessionId)
    case SqlIdleIfWatching(key) => IdleIfWatching(s, key)
    case WriteFsm(key, state) => UpsertSymbolState(s, key, Some(state))
  }

  function Run(s: Store, ops: seq<Op>, maxPyramidCount: nat): Store
    decreases |ops|
  {
    if ops == [] then s else Run(Step(s, ops[0], maxPyramidCount), ops[1..], maxPyramidCount)
  }

  lemma RunHead(s: Store, op: Op, rest: seq<Op>, maxPyramidCount: nat)
    ensures Run(s, [op] + rest, maxPyramidCount) == Run(Step(s, op, maxPyramidCount), rest, maxPyramidCount)
  {
    hide Step;
    assert ([op] + rest)[1..] == rest;
  }

  const EMPTY := Store(map[], map[], map[], 0)

  // ---- Runs without pyramid entries ----

  /** Whole calls only, and closing only through `closeTicket`. */
  predicate IsPlain(op: Op) {
    op.Create? || op.Close? || op.Open? || op.Invalidate? || op.AddSymbol? || (op.Transition? && op.to != CLOSED)
  }

  ghost predicate Fresh(s: Store) {
    && (forall id :: id in s.tickets ==> id < s.nextId)
    && (forall id :: id in s.sessions ==> id < s.nextId)
    && (forall id :: id in s.tickets && s.tickets[id].parentId.Some? ==> s.tickets[id].parentId.value < s.nextId)
  }

  ghost predicate OneActiveTicket(s: Store) {
    forall a, b ::
      (a in s.tickets && b in s.tickets && IsActive(s, a) && IsActive(s, b) && s.tickets[a].key == s.tickets[b].key)
      ==> a == b
  }

  /** HAS_POSITION exactly when the key has an active ticket. */
  ghost predicate PositionIffActive(s: Store) {
    && (forall id :: IsActive(s, id) ==> s.tickets[id].key in s.fsm && s.fsm[s.tickets[id].key] == HAS_POSITION)
    && (forall key :: key in s.fsm && s.fsm[key] == HAS_POSITION ==> HasActiveTicket(s, key))
  }

  ghost predicate WatchingHasSession(s: Store) {
    forall key :: key in s.fsm && s.fsm[key] == WATCHING ==> HasActiveSession(s, key)
  }

  ghost predicate OneSession(s: Store) {
    forall a, b ::
      (a in s.sessions && b in s.sessions && s.sessions[a].active && s.sessions[b].active
       && s.sessions[a].key == s.sessions[b].key)
      ==> a == b
  }

  ghost predicate TicketsInv(s: Store) {
    Fresh(s) && OneActiveTicket(s) && PositionIffActive(s)
  }

  ghost predicate SessionsInv(s: Store) {
    Fresh(s) && OneSession(s) && WatchingHasSession(s)
  }

  /** Every symbol state moves along an edge of its machine, or stays. */
  ghost predicate AlongEdges(s: Store, s': Store) {
    forall key :: key in s.fsm ==>
      key in s'.fsm && (s'.fsm[key] == s.fsm[key] || CanSymbolTransition(s.fsm[key], s'.fsm[key]))
  }

  lemma CreateKeepsTickets(s: Store, p: TicketParams, now: int)
    requires TicketsInv(s)
    ensures TicketsInv(After(s, CreateTicket(s, p, now)))
  {
    var r := CreateTicket(s, p, now);
    if r.Done? {
      var s' := r.store;
      assert forall id :: id in s.tickets ==> s'.tickets[id] == s.tickets[id];
      assert IsActive(s', s.nextId) && s'.tickets[s.nextId].key == p.key;
      forall key | key in s'.fsm && s'.fsm[key] == HAS_POSITION
        ensures HasActiveTicket(s', key)
      {
        if key != p.key {
          var id :| id in s.tickets && IsActive(s, id) && s.tickets[id].key == key;
          assert id in s'.tickets && IsActive(s', id);
        }
      }
    }
  }

  lemma TransitionKeepsTickets(s: Store, id: nat, to: TicketState)
    requires TicketsInv(s) && to != CLOSED
    ensures TicketsInv(After(s, TransitionTicket(s, id, to)))
  {
    var s' := After(s, TransitionTicket(s, id, to));
    assert forall i :: i in s.tickets <==> i in s'.tickets;
    assert forall i :: i in s.tickets ==>
      s'.tickets[i].key == s.tickets[i].key && (IsActive(s', i) <==> IsActive(s, i));
    forall key | key in s'.fsm && s'.fsm[key] == HAS_POSITION
      ensures HasActiveTicket(s', key)
    {
      var i :| i in s.tickets && IsActive(s, i) && s.tickets[i].key == key;
      assert i in s'.tickets && IsActive(s', i);
    }
  }

  lemma CloseKeepsTickets(s: Store, id: nat, pnl: real, labelingFails: bool, now: int)
    requires TicketsInv(s)
    ensures TicketsInv(After(s, CloseTicket(s, id, pnl, labelingFails, now)))
  {
    hide Cost;
    var s' := After(s, CloseTicket(s, id, pnl, labelingFails, now));
    if CloseTicket(s, id, pnl, labelingFails, now).Done? {
      DeactivateKeepsTickets(s, id, s'.tickets[id], s');
    }
  }

  lemma DeactivateKeepsTickets(s: Store, id: nat, t: Ticket, s': Store)
    requires TicketsInv(s) && IsActive(s, id)
    requires t.key == s.tickets[id].key && t.parentId == s.tickets[id].parentId && t.state == CLOSED
    requires s'.tickets == s.tickets[id := t] && s'.sessions == s.sessions && s'.nextId == s.nextId
    requires t.key in s.fsm ==> s'.fsm == s.fsm[t.key := IDLE]
    ensures TicketsInv(s')
  {
    assert forall i :: i in s.tickets && i != id ==> s'.tickets[i] == s.tickets[i];
    assert forall i :: IsActive(s', i) ==> IsActive(s, i) && i != id;
    forall key | key in s'.fsm && s'.fsm[key] == HAS_POSITION
      ensures HasActiveTicket(s', key)
    {
      assert key != t.key && s.fsm[key] == HAS_POSITION;
      var i :| i in s.tickets && IsActive(s, i) && s.tickets[i].key == key;
      assert i in s'.tickets && IsActive(s', i);
    }
  }

  lemma SameTickets(s: Store, s': Store)
    requires TicketsInv(s) && s'.tickets == s.tickets && s'.nextId >= s.nextId
    requires forall id :: id in s'.sessions ==> id < s'.nextId
    requires forall key :: key in s.fsm ==> key in s'.fsm
    requires forall key :: key in s'.fsm ==>
      (s'.fsm[key] == HAS_POSITION <==> key in s.fsm && s.fsm[key] == HAS_POSITION)
    ensures TicketsInv(s')
  {
    forall key | key in s'.fsm && s'.fsm[key] == HAS_POSITION
      ensures HasActiveTicket(s', key)
    {
      var i :| i in s.tickets && IsActive(s, i) && s.tickets[i].key == key;
      assert i in s'.tickets && IsActive(s', i);
    }
  }

  /** HAS_POSITION exactly when a ticket is active, and at most one ticket per key is. */
  lemma PlainKeepsTickets(s: Store, op: Op, max: nat)
    requires TicketsInv(s) && IsPlain(op)
    ensures TicketsInv(Step(s, op, max))
  {
    match op
    case Create(p, now) => CreateKeepsTickets(s, p, now);
    case Transition(id, to) => TransitionKeepsTickets(s, id, to);
    case Close(id, pnl, labelingFails, now) => CloseKeepsTickets(s, id, pnl, labelingFails, now);
    case Open(key) => NoneLeftActive(s, key); SameTickets(s, Step(s, op, max));
    case Invalidate(_) => SameTickets(s, Step(s, op, max));
    case AddSymbol(_) => SameTickets(s, Step(s, op, max));
  }

  lemma OpenKeepsSessions(s: Store, key: Key)
    requires SessionsInv(s)
    ensures OneSession(OpenWatchSession(s, key)) && WatchingHasSession(OpenWatchSession(s, key))
  {
    NoneLeftActive(s, key);
    var s' := OpenWatchSession(s, key);
    assert s.nextId in s'.sessions && s'.sessions[s.nextId] == Session(key, true);
    assert forall id :: id in s.sessions && s.sessions[id].key != key ==> s'.sessions[id] == s.sessions[id];
    forall k | k in s'.fsm && s'.fsm[k] == WATCHING
      ensures HasActiveSession(s', k)
    {
      if k != key {
        var id :| id in s.sessions && s.sessions[id].active && s.sessions[id].key == k;
        assert id in s'.sessions && s'.sessions[id].active;
      }
    }
  }

  lemma InvalidateKeepsSessions(s: Store, sessionId: nat)
    requires SessionsInv(s)
    ensures OneSession(InvalidateWatchSession(s, sessionId)) && WatchingHasSession(InvalidateWatchSession(s, sessionId))
  {
    var s' := InvalidateWatchSession(s, sessionId);
    assert forall id :: id in s.sessions && id != sessionId ==> s'.sessions[id] == s.sessions[id];
    forall k | k in s'.fsm && s'.fsm[k] == WATCHING
      ensures HasActiveSession(s', k)
    {
      var id :| id in s.sessions && s.sessions[id].active && s.sessions[id].key == k;
      assert id != sessionId;
      assert id in s'.sessions && s'.sessions[id].active;
    }
  }

  /** Steps that leave sessions alone and start no watching. */
  lemma SameSessions(s: Store, s': Store)
    requires OneSession(s) && WatchingHasSession(s) && s'.sessions == s.sessions
    requires forall key :: key in s'.fsm && s'.fsm[key] == WATCHING ==> key in s.fsm && s.fsm[key] == WATCHING
    ensures OneSession(s') && WatchingHasSession(s')
  {
    forall key | key in s'.fsm && s'.fsm[key] == WATCHING
      ensures HasActiveSession(s', key)
    {
      var id :| id in s.sessions && s.sessions[id].active && s.sessions[id].key == key;
      assert id in s'.sessions && s'.sessions[id].active;
    }
  }

  lemma PlainKeepsSessions(s: Store, op: Op, max: nat)
    requires SessionsInv(s) && IsPlain(op)
    ensures OneSession(Step(s, op, max)) && WatchingHasSession(Step(s, op, max))
  {
    hide Cost, IsActive, HasActiveTicket, OneSession, WatchingHasSession, CanTransition;
    match op
    case Create(p, now) => SameSessions(s, Step(s, op, max));
    case Transition(id, to) => SameSessions(s, Step(s, op, max));
    case Close(id, pnl, labelingFails, now) => SameSessions(s, Step(s, op, max));
    case Open(key) => OpenKeepsSessions(s, key);
    case Invalidate(sessionId) => InvalidateKeepsSessions(s, sessionId);
    case AddSymbol(_) => SameSessions(s, Step(s, op, max));
  }

  /** Every change follows an edge, although closing never reads the state it overwrites. */
  lemma PlainAlongEdges(s: Store, op: Op, max: nat)
    requires TicketsInv(s) && IsPlain(op)
    ensures AlongEdges(s, Step(s, op, max))
  {
    hide Cost, HasActiveTicket, OneActiveTicket, Fresh;
    match op
    case Close(id, pnl, labelingFails, now) =>
      if CloseTicket(s, id, pnl, labelingFails, now).Done? {
        assert IsActive(s, id);
      }
    case _ =>
  }

  ghost predicate PlainRun(ops: seq<Op>) {
    forall i :: 0 <= i < |ops| ==> IsPlain(ops[i])
  }

  /** From empty tables, in every run of whole calls. */
  lemma {:induction false} PlainRunsAreConsistent(s: Store, ops: seq<Op>, max: nat)
    requires TicketsInv(s) && SessionsInv(s) && PlainRun(ops)
    ensures var s' := Run(s, ops, max);
      Fresh(s') && OneActiveTicket(s') && PositionIffActive(s') && OneSession(s') && WatchingHasSession(s')
    decreases |ops|
  {
    if ops != [] {
      hide Step, OneActiveTicket, PositionIffActive, OneSession, WatchingHasSession, Fresh;
      PlainKeepsTickets(s, ops[0], max);
      PlainKeepsSessions(s, ops[0], max);
      PlainRunsAreConsistent(Step(s, ops[0], max), ops[1..], max);
    }
  }

  lemma {:induction false} RunPush(s: Store, ops: seq<Op>, op: Op, max: nat)
    ensures Run(s, ops + [op], max) == Step(Run(s, ops, max), op, max)
    decreases |ops|
  {
    hide Step;
    if ops == [] {
      assert [] + [op] == [op];
      assert [op][1..] == [];
    } else {
      assert (ops + [op])[1..] == ops[1..] + [op];
      RunPush(Step(s, ops[0], max), ops[1..], op, max);
    }
  }

  /** So in such a run every change of a symbol state is an edge of its machine. */
  lemma PlainRunsFollowEdges(ops: seq<Op>, i: nat, max: nat)
    requires PlainRun(ops) && i < |ops|
    ensures AlongEdges(Run(EMPTY, ops[..i], max), Run(EMPTY, ops[..i + 1], max))
  {
    hide Step, AlongEdges, Run;
    EmptyIsConsistent();
    PlainRunsAreConsistent(EMPTY, ops[..i], max);
    RunPush(EMPTY, ops[..i], ops[i], max);
    assert ops[..i + 1] == ops[..i] + [ops[i]];
    PlainAlongEdges(Run(EMPTY, ops[..i], max), ops[i], max);
  }

  lemma EmptyIsConsistent()
    ensures TicketsInv(EMPTY) && SessionsInv(EMPTY)
  {
  }

  // ---- Where the strong invariant ends ----

  /** A position state with no active ticket behind it. */
  ghost predicate Stuck(s: Store, key: Key) {
    key in s.fsm && s.fsm[key] == HAS_POSITION && !HasActiveTicket(s, key)
  }

  /** A successful `transitionTicket` keeps the invariant exactly when it does not close the ticket. */
  lemma TransitionBreaksIff(s: Store, id: nat, to: TicketState)
    requires TicketsInv(s) && TransitionTicket(s, id, to).Done?
    ensures PositionIffActive(TransitionTicket(s, id, to).store) <==> to != CLOSED
    ensures to == CLOSED ==> Stuck(TransitionTicket(s, id, to).store, s.tickets[id].key)
  {
    if to != CLOSED {
      TransitionKeepsTickets(s, id, to);
    } else {
      var s' := TransitionTicket(s, id, to).store;
      assert IsActive(s, id);
      assert forall i :: IsActive(s', i) ==> IsActive(s, i) && i != id && s'.tickets[i] == s.tickets[i];
      assert !HasActiveTicket(s', s.tickets[id].key);
    }
  }

  /** And then no call of the five frees the key again. */
  lemma {:induction false} StuckForever(s: Store, ops: seq<Op>, key: Key, max: nat)
    requires Stuck(s, key)
    requires forall i :: 0 <= i < |ops| ==> IsPlain(ops[i]) || ops[i].Transition?
    ensures Stuck(Run(s, ops, max), key)
    decreases |ops|
  {
    if ops != [] {
      StuckStep(s, ops[0], key, max);
      hide Stuck, Step;
      StuckForever(Step(s, ops[0], max), ops[1..], key, max);
    }
  }

  lemma StuckStep(s: Store, op: Op, key: Key, max: nat)
    requires Stuck(s, key) && (IsPlain(op) || op.Transition?)
    ensures Stuck(Step(s, op, max), key)
  {
    hide Cost;
    var s' := Step(s, op, max);
    assert forall id :: IsActive(s', id) && s'.tickets[id].key == key ==> IsActive(s, id) && s.tickets[id].key == key;
  }

  /** Closing a ticket keeps the equivalence for its key exactly when no other ticket of the key is active. */
  lemma CloseFreesKeyIff(s: Store, id: nat, pnl: real, labelingFails: bool, now: int)
    requires CloseTicket(s, id, pnl, labelingFails, now).Done? && s.tickets[id].key in s.fsm
    ensures var s' := CloseTicket(s, id, pnl, labelingFails, now).store;
      var key := s.tickets[id].key;
      && s'.fsm[key] == IDLE
      && (HasActiveTicket(s', key) <==>
            exists other :: other in s.tickets && other != id && IsActive(s, other) && s.tickets[other].key == key)
  {
    hide Cost;
    var s', key := CloseTicket(s, id, pnl, labelingFails, now).store, s.tickets[id].key;
    if other :| other in s.tickets && other != id && IsActive(s, other) && s.tickets[other].key == key {
      assert other in s'.tickets && IsActive(s', other) && s'.tickets[other].key == key;
    }
    if HasActiveTicket(s', key) {
      var other :| other in s'.tickets && IsActive(s', other) && s'.tickets[other].key == key;
      assert other != id && IsActive(s, other);
    }
  }

  /**
   Statement by statement, WATCHING can outlive its session: the session is invalidated
   between its insert and the state update of the call that opens it.
   */
  lemma WatchingWithoutSession(key: Key, max: nat)
    ensures var s := Run(EMPTY, [AddSymbol(key), SqlInvalidateActive(key), SqlInsertSession(key), Invalidate(0),
                                 SqlMarkWatching(key)], max);
      key in s.fsm && s.fsm[key] == WATCHING && !HasActiveSession(s, key)
  {
    var s1 := Step(EMPTY, AddSymbol(key), max);
    var s2 := Step(s1, SqlInvalidateActive(key), max);
    var s3 := Step(s2, SqlInsertSession(key), max);
    assert s3.sessions == map[0 := Session(key, true)];
    var s4 := Step(s3, Invalidate(0), max);
    assert s4.sessions == map[0 := Session(key, false)];
    var s5 := Step(s4, SqlMarkWatching(key), max);
    var ops := [AddSymbol(key), SqlInvalidateActive(key), SqlInsertSession(key), Invalidate(0), SqlMarkWatching(key)];
    assert Run(s5, [], max) == s5;
    assert ops[1..][0] == ops[1] && ops[1..][1..] == ops[2..] && ops[2..][1..] == ops[3..];
    assert ops[3..][1..] == ops[4..] && ops[4..][1..] == [];
    assert Run(s4, ops[4..], max) == s5;
    assert Run(s3, ops[3..], max) == s5;
    assert Run(s2, ops[2..], max) == s5;
    assert Run(s1, ops[1..], max) == s5;
  }

  // ---- Any interleaving ----

  ghost predicate OneParentless(s: Store) {
    forall a, b ::
      (a in s.tickets && b in s.tickets && IsActive(s, a) && IsActive(s, b)
       && s.tickets[a].parentId.None? && s.tickets[b].parentId.None? && s.tickets[a].key == s.tickets[b].key)
      ==> a == b
  }

  ghost predicate CountsWithin(s: Store, max: nat) {
    forall id :: id in s.tickets ==> s.tickets[id].pyramidCount <= max
  }

  ghost predicate SignalsUnique(s: Store) {
    forall a, b :: a in s.tickets && b in s.tickets && s.tickets[a].signalId == s.tickets[b].signalId ==> a == b
  }

  ghost predicate AlwaysInv(s: Store, max: nat) {
    Fresh(s) && OneParentless(s) && CountsWithin(s, max) && SignalsUnique(s) && OneSession(s)
  }

  /** Nothing is deleted, identity is kept, and states only move along the ticket machine. */
  ghost predicate TicketsProgress(s: Store, s': Store) {
    forall id :: id in s.tickets ==>
      && id in s'.tickets
      && s'.tickets[id].key == s.tickets[id].key && s'.tickets[id].parentId == s.tickets[id].parentId
      && s'.tickets[id].signalId == s.tickets[id].signalId
      && (s'.tickets[id].state == s.tickets[id].state || CanTransition(s.tickets[id].state, s'.tickets[id].state))
  }

  lemma CreateKeepsAlways(s: Store, p: TicketParams, now: int, max: nat)
    requires AlwaysInv(s, max)
    ensures AlwaysInv(After(s, CreateTicket(s, p, now)), max)
  {
    var r := CreateTicket(s, p, now);
    if r.Done? {
      assert forall id :: id in s.tickets ==> r.store.tickets[id] == s.tickets[id];
      assert forall id :: IsActive(r.store, id) ==> IsActive(s, id) || id == s.nextId;
    }
  }

  /** Rewriting one ticket: its identity stays, it does not become active again. */
  lemma RewriteKeepsAlways(s: Store, id: nat, t: Ticket, s': Store, max: nat)
    requires AlwaysInv(s, max) && id in s.tickets && t.pyramidCount <= max
    requires t.key == s.tickets[id].key && t.parentId == s.tickets[id].parentId && t.signalId == s.tickets[id].signalId
    requires t.state != CLOSED ==> s.tickets[id].state != CLOSED
    requires s'.tickets == s.tickets[id := t] && s'.sessions == s.sessions && s'.nextId == s.nextId
    ensures AlwaysInv(s', max)
  {
    assert forall i :: i in s.tickets && i != id ==> s'.tickets[i] == s.tickets[i];
    assert forall i :: IsActive(s', i) ==> IsActive(s, i);
  }

  lemma InsertChildKeepsAlways(s: Store, p: TicketParams, parentId: nat, now: int, max: nat)
    requires AlwaysInv(s, max) && parentId in s.tickets && !SignalUsed(s, p.signalId)
    ensures AlwaysInv(WithTicket(s, NewTicket(p, Some(parentId), now)), max)
  {
    var s' := WithTicket(s, NewTicket(p, Some(parentId), now));
    assert forall id :: id in s.tickets ==> s'.tickets[id] == s.tickets[id];
    assert forall id :: IsActive(s', id) ==> IsActive(s, id) || id == s.nextId;
  }

  lemma PyramidKeepsAlways(s: Store, p: PyramidParams, now: int, max: nat)
    requires AlwaysInv(s, max)
    ensures AlwaysInv(After(s, ExecutePyramid(s, p, max, now)), max)
  {
    hide AlwaysInv;
    var r := ExecutePyramid(s, p, max, now);
    if r.Done? {
      InsertChildKeepsAlways(s, ChildParams(p), p.parentId, now, max);
      var inserted := WithTicket(s, NewTicket(ChildParams(p), Some(p.parentId), now));
      RewriteKeepsAlways(inserted, p.parentId,
                         inserted.tickets[p.parentId].(pyramidCount := CountOf(p.row) + 1), r.store, max);
    }
  }

  lemma SameTicketsAlways(s: Store, s': Store, max: nat)
    requires AlwaysInv(s, max) && s'.tickets == s.tickets && s'.nextId >= s.nextId
    requires OneSession(s') && forall id :: id in s'.sessions ==> id < s'.nextId
    ensures AlwaysInv(s', max)
  {
  }

  lemma CountWithin(s: Store, id: nat, max: nat)
    requires AlwaysInv(s, max) && id in s.tickets
    ensures s.tickets[id].pyramidCount <= max
  {
  }

  lemma StepKeepsAlways(s: Store, op: Op, max: nat)
    requires AlwaysInv(s, max)
    ensures AlwaysInv(Step(s, op, max), max)
  {
    hide Cost, AlwaysInv, HasActiveTicket, SignalUsed, CanPyramid;
    var s' := Step(s, op, max);
    match op
    case Create(p, now) => CreateKeepsAlways(s, p, now, max);
    case Transition(id, to) =>
      if id in s.tickets && s' != s {
        CountWithin(s, id, max);
        RewriteKeepsAlways(s, id, s.tickets[id].(state := to), s', max);
      }
    case Close(id, pnl, _, now) =>
      if id in s.tickets && s' != s {
        CountWithin(s, id, max);
        RewriteKeepsAlways(s, id, s'.tickets[id], s', max);
      }
    case Pyramid(p, now) => PyramidKeepsAlways(s, p, now, max);
    case _ =>
      SessionStep(s, op, max);
      SameTicketsAlways(s, s', max);
  }

  predicate TouchesTickets(op: Op) {
    op.Create? || op.Transition? || op.Close? || op.Pyramid?
  }

  lemma SessionStep(s: Store, op: Op, max: nat)
    requires AlwaysInv(s, max) && !TouchesTickets(op)
    ensures var s' := Step(s, op, max);
      && s'.tickets == s.tickets && s'.nextId >= s.nextId && OneSession(s')
      && forall id :: id in s'.sessions ==> id < s'.nextId
  {
    hide HasActiveTicket, OneParentless, SignalsUnique, CountsWithin;
    match op
    case Open(key) => OpenKeepsOneSession(s, key);
    case _ =>
  }

  lemma OpenKeepsOneSession(s: Store, key: Key)
    requires Fresh(s) && OneSession(s)
    ensures OneSession(OpenWatchSession(s, key)) && Fresh(OpenWatchSession(s, key))
    ensures OpenWatchSession(s, key).tickets == s.tickets
  {
    NoneLeftActive(s, key);
  }

  lemma SameTicketsProgress(s: Store, s': Store)
    requires s'.tickets == s.tickets
    ensures TicketsProgress(s, s')
  {
  }

  lemma InsertProgresses(s: Store, t: Ticket, s': Store)
    requires Fresh(s) && s'.tickets == s.tickets[s.nextId := t]
    ensures TicketsProgress(s, s')
  {
  }

  lemma RewriteProgresses(s: Store, id: nat, t: Ticket, s': Store)
    requires id in s.tickets && s'.tickets == s.tickets[id := t]
    requires t.key == s.tickets[id].key && t.parentId == s.tickets[id].parentId && t.signalId == s.tickets[id].signalId
    requires t.state == s.tickets[id].state || CanTransition(s.tickets[id].state, t.state)
    ensures TicketsProgress(s, s')
  {
  }

  lemma PyramidProgresses(s: Store, p: PyramidParams, max: nat, now: int)
    requires Fresh(s) && ExecutePyramid(s, p, max, now).Done?
    ensures TicketsProgress(s, ExecutePyramid(s, p, max, now).store)
  {
    var s' := ExecutePyramid(s, p, max, now).store;
    assert forall id :: id in s.tickets ==> id in s'.tickets && id != s.nextId;
  }

  lemma StepProgresses(s: Store, op: Op, max: nat)
    requires Fresh(s)
    ensures TicketsProgress(s, Step(s, op, max))
  {
    hide Cost, HasActiveTicket, HasActiveSession, SignalUsed, CanPyramid, TicketsProgress, CanTransition, Fresh;
    var s' := Step(s, op, max);
    match op
    case Create(p, now) =>
      if CreateTicket(s, p, now).Done? {
        InsertProgresses(s, NewTicket(p, None, now), s');
      } else {
        SameTicketsProgress(s, s');
      }
    case Transition(id, to) =>
      if TransitionTicket(s, id, to).Done? {
        RewriteProgresses(s, id, s'.tickets[id], s');
      } else {
        SameTicketsProgress(s, s');
      }
    case Close(id, pnl, labelingFails, now) =>
      if CloseTicket(s, id, pnl, labelingFails, now).Done? {
        RewriteProgresses(s, id, s'.tickets[id], s');
      } else {
        SameTicketsProgress(s, s');
      }
    case Pyramid(p, now) =>
      if ExecutePyramid(s, p, max, now).Done? {
        PyramidProgresses(s, p, max, now);
      } else {
        SameTicketsProgress(s, s');
      }
    case _ => SameTicketsProgress(s, s');
  }

  /**
   Under any interleaving: at most one active ticket without a parent per key, every
   pyramid_count within the maximum, signals used once, one active session per key.
   */
  lemma {:induction false} AnyRunIsSafe(s: Store, ops: seq<Op>, max: nat)
    requires AlwaysInv(s, max)
    ensures var s' := Run(s, ops, max);
      OneParentless(s') && CountsWithin(s', max) && SignalsUnique(s') && OneSession(s') && Fresh(s')
    decreases |ops|
  {
    if ops != [] {
      hide Step, AlwaysInv;
      StepKeepsAlways(s, ops[0], max);
      AnyRunIsSafe(Step(s, ops[0], max), ops[1..], max);
    }
  }

  lemma EmptyIsAlways(max: nat)
    ensures AlwaysInv(EMPTY, max)
  {
  }

  /** So from empty tables, whatever happens. */
  lemma AnyRunFromEmpty(ops: seq<Op>, max: nat)
    ensures var s := Run(EMPTY, ops, max);
      OneParentless(s) && CountsWithin(s, max) && SignalsUnique(s) && OneSession(s)
  {
    hide AlwaysInv, Run;
    EmptyIsAlways(max);
    AnyRunIsSafe(EMPTY, ops, max);
  }

  /** A closed ticket never reopens and no ticket moves back up the ladder or changes identity. */
  lemma {:induction false} ClosedStaysClosed(s: Store, ops: seq<Op>, max: nat, id: nat)
    requires AlwaysInv(s, max) && id in s.tickets
    ensures var s' := Run(s, ops, max);
      && id in s'.tickets
      && Rung(s.tickets[id].state) <= Rung(s'.tickets[id].state)
      && (s.tickets[id].state == CLOSED ==> s'.tickets[id].state == CLOSED)
      && s'.tickets[id].key == s.tickets[id].key && s'.tickets[id].parentId == s.tickets[id].parentId
    decreases |ops|
  {
    if ops != [] {
      StepKeepsAlways(s, ops[0], max);
      StepProgresses(s, ops[0], max);
      hide Step, AlwaysInv;
      ClosedStaysClosed(Step(s, ops[0], max), ops[1..], max, id);
    }
  }

  // ---- How many children a parent gets ----

  function Children(s: Store, parentId: nat): set<nat> {
    set id | id in s.tickets && s.tickets[id].parentId == Some(parentId)
  }

  /** Every pyramid_count is the number of children. */
  ghost predicate CountsExact(s: Store) {
    forall id :: id in s.tickets ==> |Children(s, id)| == s.tickets[id].pyramidCount
  }

  lemma PyramidAddsChild(s: Store, p: PyramidParams, max: nat, now: int)
    requires Fresh(s) && ExecutePyramid(s, p, max, now).Done?
    ensures var s' := ExecutePyramid(s, p, max, now).store;
      && s'.tickets.Keys == s.tickets.Keys + {s.nextId} && s.nextId !in s.tickets && s'.nextId == s.nextId + 1
      && s'.tickets[p.parentId].pyramidCount == CountOf(p.row) + 1
      && s'.tickets[s.nextId].pyramidCount == 0
      && (forall id :: id in s.tickets && id != p.parentId ==> s'.tickets[id] == s.tickets[id])
      && Children(s', p.parentId) == Children(s, p.parentId) + {s.nextId}
      && s.nextId !in Children(s, p.parentId)
      && (forall id :: id != p.parentId ==> Children(s', id) == Children(s, id))
      && Fresh(s')
  {
  }

  lemma NewHasNoChildren(s: Store)
    requires Fresh(s)
    ensures Children(s, s.nextId) == {}
  {
  }

  /** A pyramid entry keeps the counts exact if and only if its parent row was up to date. */
  lemma CountsExactIff(s: Store, p: PyramidParams, max: nat, now: int)
    requires Fresh(s) && CountsExact(s) && ExecutePyramid(s, p, max, now).Done?
    ensures CountsExact(ExecutePyramid(s, p, max, now).store) <==> CountOf(p.row) == s.tickets[p.parentId].pyramidCount
  {
    hide ExecutePyramid, Children;
    var s' := ExecutePyramid(s, p, max, now).store;
    PyramidStoresParent(s, p, max, now);
    PyramidAddsChild(s, p, max, now);
    NewHasNoChildren(s);
    AddOne(Children(s, p.parentId), Children(s', p.parentId), s.nextId);
  }

  lemma PyramidStoresParent(s: Store, p: PyramidParams, max: nat, now: int)
    requires ExecutePyramid(s, p, max, now).Done?
    ensures p.parentId in s.tickets && p.parentId in ExecutePyramid(s, p, max, now).store.tickets
    ensures CanPyramid(p.row, max)
  {
  }

  lemma AddOne(a: set<nat>, b: set<nat>, x: nat)
    requires b == a + {x} && x !in a
    ensures |b| == |a| + 1
  {
  }

  /** Each pyramid entry of the run uses the parent's current count. */
  ghost predicate UpToDate(s: Store, ops: seq<Op>, max: nat)
    decreases |ops|
  {
    ops != [] ==>
      && (ops[0].Pyramid? && ops[0].pyramid.parentId in s.tickets ==>
            CountOf(ops[0].pyramid.row) == s.tickets[ops[0].pyramid.parentId].pyramidCount)
      && UpToDate(Step(s, ops[0], max), ops[1..], max)
  }

  lemma OtherStepsKeepCounts(s: Store, op: Op, max: nat)
    requires Fresh(s) && CountsExact(s) && !op.Pyramid?
    ensures CountsExact(Step(s, op, max))
  {
    hide Cost, HasActiveTicket, HasActiveSession, SignalUsed, Children;
    var s' := Step(s, op, max);
    NewHasNoChildren(s);
    CountsCarry(s, s');
  }

  lemma CountsCarry(s: Store, s': Store)
    requires CountsExact(s) && Children(s, s.nextId) == {}
    requires forall i :: i in s.tickets ==>
      i in s'.tickets && s'.tickets[i].parentId == s.tickets[i].parentId
      && s'.tickets[i].pyramidCount == s.tickets[i].pyramidCount
    requires forall i :: i in s'.tickets && i !in s.tickets ==>
      i == s.nextId && s'.tickets[i].parentId.None? && s'.tickets[i].pyramidCount == 0
    ensures CountsExact(s')
  {
    hide Children;
    forall id | id in s'.tickets
      ensures |Children(s', id)| == s'.tickets[id].pyramidCount
    {
      SameChildren(s, s', id);
    }
  }

  lemma SameChildren(s: Store, s': Store, id: nat)
    requires forall i :: i in s.tickets ==> i in s'.tickets && s'.tickets[i].parentId == s.tickets[i].parentId
    requires forall i :: i in s'.tickets && i !in s.tickets ==> s'.tickets[i].parentId.None?
    ensures Children(s', id) == Children(s, id)
  {
  }

  lemma UpToDateStep(s: Store, ops: seq<Op>, max: nat)
    requires AlwaysInv(s, max) && CountsExact(s) && ops != [] && UpToDate(s, ops, max)
    ensures CountsExact(Step(s, ops[0], max)) && UpToDate(Step(s, ops[0], max), ops[1..], max)
  {
    if ops[0].Pyramid? {
      var p, now := ops[0].pyramid, ops[0].now;
      if ExecutePyramid(s, p, max, now).Done? {
        PyramidStoresParent(s, p, max, now);
        CountsExactIff(s, p, max, now);
      }
    } else {
      OtherStepsKeepCounts(s, ops[0], max);
    }
  }

  /** With up-to-date rows no parent ever has more children than the maximum. */
  lemma {:induction false} UpToDateRowsBoundChildren(s: Store, ops: seq<Op>, max: nat)
    requires AlwaysInv(s, max) && CountsExact(s) && UpToDate(s, ops, max)
    ensures CountsExact(Run(s, ops, max)) && CountsWithin(Run(s, ops, max), max)
    decreases |ops|
  {
    hide Step, UpToDate, CountsExact;
    if ops != [] {
      StepKeepsAlways(s, ops[0], max);
      UpToDateStep(s, ops, max);
      UpToDateRowsBoundChildren(Step(s, ops[0], max), ops[1..], max);
    }
  }

  /** `n` entries that all read the same parent row, each for its own signal. */
  function StaleEntries(parentId: nat, row: ParentRow, signalId: nat, n: nat): seq<Op>
    decreases n
  {
    if n == 0 then []
    else [Pyramid(StaleEntry(parentId, row, signalId), 0)] + StaleEntries(parentId, row, signalId + 1, n - 1)
  }

  function StaleEntry(parentId: nat, row: ParentRow, signalId: nat): PyramidParams {
    PyramidParams(parentId, row, signalId, row.direction, 1.0, 1.0, Some(1.0), true)
  }

  ghost predicate SignalsBelow(s: Store, signalId: nat) {
    forall id :: id in s.tickets ==> s.tickets[id].signalId < signalId
  }

  function AfterStale(s: Store, parentId: nat, row: ParentRow, signalId: nat, max: nat): Store {
    Step(s, Pyramid(StaleEntry(parentId, row, signalId), 0), max)
  }

  lemma StaleEntrySucceeds(s: Store, parentId: nat, row: ParentRow, signalId: nat, max: nat)
    requires parentId in s.tickets && CanPyramid(row, max) && SignalsBelow(s, signalId)
    ensures ExecutePyramid(s, StaleEntry(parentId, row, signalId), max, 0).Done?
    ensures SignalsBelow(AfterStale(s, parentId, row, signalId, max), signalId + 1)
  {
    var s' := AfterStale(s, parentId, row, signalId, max);
    assert forall id :: id in s'.tickets && id in s.tickets && id != s.nextId ==>
      s'.tickets[id].signalId == s.tickets[id].signalId;
  }

  lemma StaleEntryAddsChild(s: Store, parentId: nat, row: ParentRow, signalId: nat, max: nat)
    requires AlwaysInv(s, max) && parentId in s.tickets && CanPyramid(row, max) && SignalsBelow(s, signalId)
    ensures var s' := AfterStale(s, parentId, row, signalId, max);
      && AlwaysInv(s', max) && parentId in s'.tickets && SignalsBelow(s', signalId + 1)
      && |Children(s', parentId)| == |Children(s, parentId)| + 1
      && s'.tickets[parentId].pyramidCount == CountOf(row) + 1 <= max
  {
    hide Children, ExecutePyramid, SignalsBelow;
    var p := StaleEntry(parentId, row, signalId);
    StaleEntrySucceeds(s, parentId, row, signalId, max);
    StepKeepsAlways(s, Pyramid(p, 0), max);
    PyramidAddsChild(s, p, max, 0);
    AddOne(Children(s, parentId), Children(AfterStale(s, parentId, row, signalId, max), parentId), s.nextId);
  }

  /** Rows read before each other's updates: any number of children, while the count shows one entry. */
  lemma {:induction false} StaleRowsExceedMaximum(
      s: Store, parentId: nat, row: ParentRow, signalId: nat, n: nat, max: nat)
    requires AlwaysInv(s, max) && parentId in s.tickets && CanPyramid(row, max) && SignalsBelow(s, signalId)
    ensures var s' := Run(s, StaleEntries(parentId, row, signalId, n), max);
      && |Children(s', parentId)| == |Children(s, parentId)| + n
      && parentId in s'.tickets
      && (n > 0 ==> s'.tickets[parentId].pyramidCount == CountOf(row) + 1 <= max)
    decreases n
  {
    hide Children, SignalsBelow, StaleEntry, AlwaysInv, Step, CanPyramid, Run, StaleEntries;
    RunStale(s, parentId, row, signalId, n, max);
    if n > 0 {
      StaleEntryAddsChild(s, parentId, row, signalId, max);
      RunStale(AfterStale(s, parentId, row, signalId, max), parentId, row, signalId + 1, n - 1, max);
      StaleRowsExceedMaximum(AfterStale(s, parentId, row, signalId, max), parentId, row, signalId + 1, n - 1, max);
    }
  }

  lemma RunStale(s: Store, parentId: nat, row: ParentRow, signalId: nat, n: nat, max: nat)
    ensures Run(s, StaleEntries(parentId, row, signalId, n), max) ==
      if n == 0 then s
      else Run(AfterStale(s, parentId, row, signalId, max), StaleEntries(parentId, row, signalId + 1, n - 1), max)
  {
    hide Step, StaleEntry;
    if n > 0 {
      RunHead(
        s, Pyramid(StaleEntry(parentId, row, signalId), 0), StaleEntries(parentId, row, signalId + 1, n - 1), max);
    }
  }
}
