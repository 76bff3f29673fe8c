/**
 Exactly which steps of an arbitrary interleaving keep the two strong invariants of the
 store, and so exactly which interleavings keep them throughout.
 */
module StoreGuards {
  import opened Core
  import opened Fsm
  import opened TicketStore
  import opened StoreLaws

  // ---- WATCHING only with an active session ----

  predicate IsState(s: Store, key: Key, state: FsmState) {
    key in s.fsm && s.fsm[key] == state
  }

  /** What must hold before a step so that WATCHING still implies an active session after it. */
  predicate WatchingGuard(s: Store, op: Op) {
    match op
    case SqlMarkWatching(key) => !IsState(s, key, IDLE) || HasActiveSession(s, key)
    case SqlInvalidateActive(key) => !IsState(s, key, WATCHING)
    case SqlMarkInvalidated(id) =>
      !(id in s.sessions && s.sessions[id].active && IsState(s, s.sessions[id].key, WATCHING))
    case WriteFsm(key, state) => state != WATCHING || HasActiveSession(s, key)
    case _ => true
  }

  lemma MarkWatchingIff(s: Store, key: Key)
    requires WatchingHasSession(s)
    ensures WatchingHasSession(MarkWatching(s, key)) <==> WatchingGuard(s, SqlMarkWatching(key))
  {
    var s' := MarkWatching(s, key);
    assert forall k :: HasActiveSession(s', k) <==> HasActiveSession(s, k);
    assert IsState(s, key, IDLE) ==> IsState(s', key, WATCHING);
  }

  lemma InvalidateActiveIff(s: Store, key: Key)
    requires WatchingHasSession(s)
    ensures WatchingHasSession(InvalidateActive(s, key)) <==> WatchingGuard(s, SqlInvalidateActive(key))
  {
    NoneLeftActive(s, key);
    var s' := InvalidateActive(s, key);
    forall k | k != key && HasActiveSession(s, k)
      ensures HasActiveSession(s', k)
    {
      var id :| id in s.sessions && s.sessions[id].active && s.sessions[id].key == k;
      assert id in s'.sessions && s'.sessions[id].active;
    }
  }

  lemma MarkInvalidatedIff(s: Store, sessionId: nat)
    requires WatchingHasSession(s) && OneSession(s)
    ensures WatchingHasSession(MarkInvalidated(s, sessionId)) <==> WatchingGuard(s, SqlMarkInvalidated(sessionId))
  {
    var s' := MarkInvalidated(s, sessionId);
    forall k | && HasActiveSession(s, k)
               && (sessionId in s.sessions && s.sessions[sessionId].active ==> s.sessions[sessionId].key != k)
      ensures HasActiveSession(s', k)
    {
      var id :| id in s.sessions && s.sessions[id].active && s.sessions[id].key == k;
      assert id in s'.sessions && s'.sessions[id].active;
    }
    if sessionId in s.sessions && s.sessions[sessionId].active {
      assert !HasActiveSession(s', s.sessions[sessionId].key);
    }
  }

  lemma WriteFsmWatchingIff(s: Store, key: Key, state: FsmState)
    requires WatchingHasSession(s)
    ensures WatchingHasSession(UpsertSymbolState(s, key, Some(state))) <==> WatchingGuard(s, WriteFsm(key, state))
  {
    var s' := UpsertSymbolState(s, key, Some(state));
    assert forall k :: HasActiveSession(s', k) <==> HasActiveSession(s, k);
    assert IsState(s', key, state);
  }

  lemma InsertKeepsWatching(s: Store, key: Key)
    requires WatchingHasSession(s) && Fresh(s)
    ensures WatchingHasSession(After(s, InsertSession(s, key)))
  {
    var s' := After(s, InsertSession(s, key));
    forall k | HasActiveSession(s, k)
      ensures HasActiveSession(s', k)
    {
      var id :| id in s.sessions && s.sessions[id].active && s.sessions[id].key == k;
      assert id in s'.sessions && s'.sessions[id] == s.sessions[id];
    }
  }

  /** Each single step keeps the invariant if and only if its guard holds. */
  lemma WatchingStepIff(s: Store, op: Op, max: nat)
    requires SessionsInv(s)
    ensures WatchingHasSession(Step(s, op, max)) <==> WatchingGuard(s, op)
  {
    hide Cost, IsActive, HasActiveTicket, HasActiveSession, OneSession, WatchingHasSession, CanTransition, CanPyramid,
         SignalUsed, MarkWatching, MarkInvalidated, InvalidateActive, InsertSession;
    match op
    case SqlMarkWatching(key) => MarkWatchingIff(s, key);
    case SqlInvalidateActive(key) => InvalidateActiveIff(s, key);
    case SqlMarkInvalidated(id) => MarkInvalidatedIff(s, id);
    case WriteFsm(key, state) => WriteFsmWatchingIff(s, key, state);
    case SqlInsertSession(key) => InsertKeepsWatching(s, key);
    case SqlIdleIfWatching(key) => SameSessions(s, Step(s, op, max));
    case Pyramid(p, now) => SameSessions(s, Step(s, op, max));
    case Transition(id, to) => SameSessions(s, Step(s, op, max));
    case _ => PlainKeepsSessions(s, op, max);
  }

  ghost predicate WatchedThroughout(s: Store, ops: seq<Op>, max: nat)
    decreases |ops|
  {
    WatchingHasSession(s) && (ops != [] ==> WatchedThroughout(Step(s, ops[0], max), ops[1..], max))
  }

  ghost predicate WatchingGuarded(s: Store, ops: seq<Op>, max: nat)
    decreases |ops|
  {
    ops != [] ==> WatchingGuard(s, ops[0]) && WatchingGuarded(Step(s, ops[0], max), ops[1..], max)
  }

  /** WATCHING implies an active session all along an interleaving exactly when every step meets its guard. */
  lemma {:induction false} WatchedThroughoutIff(s: Store, ops: seq<Op>, max: nat)
    requires AlwaysInv(s, max) && WatchingHasSession(s)
    ensures WatchedThroughout(s, ops, max) <==> WatchingGuarded(s, ops, max)
    decreases |ops|
  {
    if ops != [] {
      WatchingStepIff(s, ops[0], max);
      StepKeepsAlways(s, ops[0], max);
      hide Step, AlwaysInv, WatchingGuard, WatchingHasSession;
      if WatchingHasSession(Step(s, ops[0], max)) {
        WatchedThroughoutIff(Step(s, ops[0], max), ops[1..], max);
      } else {
        NotWatched(Step(s, ops[0], max), ops[1..], max);
      }
    }
  }

  lemma NotWatched(s: Store, ops: seq<Op>, max: nat)
    requires !WatchingHasSession(s)
    ensures !WatchedThroughout(s, ops, max)
  {
  }

  /** From empty tables. */
  lemma WatchedFromEmptyIff(ops: seq<Op>, max: nat)
    ensures WatchedThroughout(EMPTY, ops, max) <==> WatchingGuarded(EMPTY, ops, max)
  {
    hide AlwaysInv, WatchedThroughout, WatchingGuarded;
    EmptyIsAlways(max);
    EmptyIsConsistent();
    WatchedThroughoutIff(EMPTY, ops, max);
  }

  // ---- HAS_POSITION exactly with an active ticket ----

  predicate OtherActive(s: Store, id: nat)
    requires id in s.tickets
  {
    exists other :: other in s.tickets && other != id && IsActive(s, other) && s.tickets[other].key == s.tickets[id].key
  }

  /** What must hold before a step so that HAS_POSITION still means an active ticket after it. */
  predicate PositionGuard(s: Store, op: Op, max: nat) {
    match op
    case Transition(id, to) => !(TransitionTicket(s, id, to).Done? && to == CLOSED) || OtherActive(s, id)
    case Close(id, pnl, labelingFails, now) =>
      !CloseTicket(s, id, pnl, labelingFails, now).Done? || !OtherActive(s, id)
    case Pyramid(p, now) => !ExecutePyramid(s, p, max, now).Done? || IsState(s, p.row.key, HAS_POSITION)
    case WriteFsm(key, state) => state == HAS_POSITION <==> HasActiveTicket(s, key)
    case _ => true
  }

  lemma ActiveCarries(s: Store, s': Store, key: Key)
    requires forall id :: id in s.tickets && IsActive(s, id) && s.tickets[id].key == key ==>
               id in s'.tickets && IsActive(s', id) && s'.tickets[id].key == key
    ensures HasActiveTicket(s, key) ==> HasActiveTicket(s', key)
  {
    if HasActiveTicket(s, key) {
      var id :| id in s.tickets && IsActive(s, id) && s.tickets[id].key == key;
      assert id in s'.tickets && IsActive(s', id);
    }
  }

  lemma CreateKeepsPosition(s: Store, p: TicketParams, now: int)
    requires Fresh(s) && PositionIffActive(s)
    ensures PositionIffActive(After(s, CreateTicket(s, p, now)))
  {
    var s' := After(s, CreateTicket(s, p, now));
    if s' != s {
      assert IsActive(s', s.nextId) && s'.tickets[s.nextId].key == p.key;
      assert forall id :: id in s.tickets ==> s'.tickets[id] == s.tickets[id];
      forall key | key in s'.fsm && s'.fsm[key] == HAS_POSITION
        ensures HasActiveTicket(s', key)
      {
        ActiveCarries(s, s', key);
      }
    }
  }

  /** Tickets keep identity and activity. */
  lemma SameActivity(s: Store, s': Store)
    requires PositionIffActive(s) && s'.fsm == s.fsm
    requires forall id :: id in s.tickets <==> id in s'.tickets
    requires forall id :: id in s.tickets ==>
      s'.tickets[id].key == s.tickets[id].key && (IsActive(s', id) <==> IsActive(s, id))
    ensures PositionIffActive(s')
  {
    forall key | key in s'.fsm && s'.fsm[key] == HAS_POSITION
      ensures HasActiveTicket(s', key)
    {
      ActiveCarries(s, s', key);
    }
  }

  /** One ticket stops being active; its key's state becomes `state`, the others stay. */
  lemma DeactivateIff(s: Store, id: nat, s': Store)
    requires PositionIffActive(s) && IsActive(s, id)
    requires s'.tickets.Keys == s.tickets.Keys && s'.tickets[id].state == CLOSED
    requires s'.tickets[id].key == s.tickets[id].key
    requires forall i :: i in s.tickets && i != id ==> s'.tickets[i] == s.tickets[i]
    requires s'.fsm.Keys == s.fsm.Keys
    requires forall key :: key in s.fsm && key != s.tickets[id].key ==> s'.fsm[key] == s.fsm[key]
    requires s.tickets[id].key in s.fsm
    ensures PositionIffActive(s') <==> (s'.fsm[s.tickets[id].key] == HAS_POSITION <==> OtherActive(s, id))
  {
    var own := s.tickets[id].key;
    assert forall i :: IsActive(s', i) <==> IsActive(s, i) && i != id;
    assert HasActiveTicket(s', own) <==> OtherActive(s, id) by {
      if OtherActive(s, id) {
        var other :| other in s.tickets && other != id && IsActive(s, other) && s.tickets[other].key == own;
        assert other in s'.tickets && IsActive(s', other);
      }
    }
    forall key | key in s'.fsm && key != own && s'.fsm[key] == HAS_POSITION
      ensures HasActiveTicket(s', key)
    {
      ActiveCarries(s, s', key);
    }
  }

  lemma PyramidPositionIff(s: Store, p: PyramidParams, max: nat, now: int)
    requires Fresh(s) && PositionIffActive(s) && ExecutePyramid(s, p, max, now).Done?
    ensures PositionIffActive(ExecutePyramid(s, p, max, now).store) <==> IsState(s, p.row.key, HAS_POSITION)
  {
    var s' := ExecutePyramid(s, p, max, now).store;
    assert s.nextId !in s.tickets && p.parentId in s.tickets;
    assert IsActive(s', s.nextId) && s'.tickets[s.nextId].key == p.row.key;
    assert forall id :: id in s.tickets ==>
      id in s'.tickets && s'.tickets[id].key == s.tickets[id].key && (IsActive(s', id) <==> IsActive(s, id));
    forall key | key in s'.fsm && s'.fsm[key] == HAS_POSITION
      ensures HasActiveTicket(s', key)
    {
      ActiveCarries(s, s', key);
    }
  }

  lemma SameTicketsPosition(s: Store, s': Store)
    requires PositionIffActive(s) && s'.tickets == s.tickets
    requires forall key :: IsState(s', key, HAS_POSITION) <==> IsState(s, key, HAS_POSITION)
    ensures PositionIffActive(s')
  {
    assert forall id :: IsActive(s', id) ==> IsActive(s, id) && IsState(s, s.tickets[id].key, HAS_POSITION);
    forall key | key in s'.fsm && s'.fsm[key] == HAS_POSITION
      ensures HasActiveTicket(s', key)
    {
      assert IsState(s', key, HAS_POSITION);
      ActiveCarries(s, s', key);
    }
  }

  lemma WriteFsmPositionIff(s: Store, key: Key, state: FsmState)
    requires PositionIffActive(s)
    ensures PositionIffActive(UpsertSymbolState(s, key, Some(state)))
       <==> (state == HAS_POSITION <==> HasActiveTicket(s, key))
  {
    var s' := UpsertSymbolState(s, key, Some(state));
    assert forall id :: IsActive(s', id) <==> IsActive(s, id);
    assert forall k :: HasActiveTicket(s', k) <==> HasActiveTicket(s, k);
  }

  /** Each single step keeps the invariant if and only if its guard holds. */
  lemma PositionStepIff(s: Store, op: Op, max: nat)
    requires Fresh(s) && PositionIffActive(s)
    ensures PositionIffActive(Step(s, op, max)) <==> PositionGuard(s, op, max)
  {
    hide Cost, HasActiveTicket, HasActiveSession, PositionIffActive, SignalUsed, CanPyramid, OtherActive;
    var s' := Step(s, op, max);
    match op
    case Create(p, now) => CreateKeepsPosition(s, p, now);
    case Transition(id, to) =>
      if TransitionTicket(s, id, to).Done? {
        ActiveHasPosition(s, id);
        if to == CLOSED {
          DeactivateIff(s, id, s');
        } else {
          SameActivity(s, s');
        }
      }
    case Close(id, pnl, labelingFails, now) =>
      if CloseTicket(s, id, pnl, labelingFails, now).Done? {
        ActiveHasPosition(s, id);
        DeactivateIff(s, id, s');
      }
    case Pyramid(p, now) =>
      if ExecutePyramid(s, p, max, now).Done? {
        PyramidPositionIff(s, p, max, now);
      }
    case WriteFsm(key, state) => WriteFsmPositionIff(s, key, state);
    case Open(key) => NoneLeftActive(s, key); SameTicketsPosition(s, s');
    case _ => SameTicketsPosition(s, s');
  }

  lemma ActiveHasPosition(s: Store, id: nat)
    requires PositionIffActive(s)
    ensures IsActive(s, id) ==> IsState(s, s.tickets[id].key, HAS_POSITION)
  {
  }

  ghost predicate PositionThroughout(s: Store, ops: seq<Op>, max: nat)
    decreases |ops|
  {
    PositionIffActive(s) && (ops != [] ==> PositionThroughout(Step(s, ops[0], max), ops[1..], max))
  }

  ghost predicate PositionGuarded(s: Store, ops: seq<Op>, max: nat)
    decreases |ops|
  {
    ops != [] ==> PositionGuard(s, ops[0], max) && PositionGuarded(Step(s, ops[0], max), ops[1..], max)
  }

  /** HAS_POSITION means an active ticket all along an interleaving exactly when every step meets its guard. */
  lemma {:induction false} PositionThroughoutIff(s: Store, ops: seq<Op>, max: nat)
    requires AlwaysInv(s, max) && PositionIffActive(s)
    ensures PositionThroughout(s, ops, max) <==> PositionGuarded(s, ops, max)
    decreases |ops|
  {
    if ops != [] {
      PositionStepIff(s, ops[0], max);
      StepKeepsAlways(s, ops[0], max);
      hide Step, AlwaysInv, PositionGuard, PositionIffActive;
      if PositionIffActive(Step(s, ops[0], max)) {
        PositionThroughoutIff(Step(s, ops[0], max), ops[1..], max);
      } else {
        NotPositioned(Step(s, ops[0], max), ops[1..], max);
      }
    }
  }

  lemma NotPositioned(s: Store, ops: seq<Op>, max: nat)
    requires !PositionIffActive(s)
    ensures !PositionThroughout(s, ops, max)
  {
  }

  /** From empty tables. */
  lemma PositionFromEmptyIff(ops: seq<Op>, max: nat)
    ensures PositionThroughout(EMPTY, ops, max) <==> PositionGuarded(EMPTY, ops, max)
  {
    hide AlwaysInv, PositionThroughout, PositionGuarded;
    EmptyIsAlways(max);
    EmptyIsConsistent();
    PositionThroughoutIff(EMPTY, ops, max);
  }
}
