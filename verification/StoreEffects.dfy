/**
 What each operation of the store succeeds for and what it leaves in the tables, row by row;
 and which changes of a symbol state some run of whole calls really makes.
 */
module StoreEffects {
  import opened Core
  import opened Fsm
  import opened TicketStore
  import opened StoreLaws

  // ---- Tickets ----

  /**
   A ticket is created exactly while its key is watched and has no open ticket, for a signal no
   ticket used before. It starts with its whole size at the given prices, and marks the key.
   */
  lemma CreateLaw(s: Store, p: TicketParams, now: int)
    ensures CreateTicket(s, p, now).Done? <==>
      && p.key in s.fsm && s.fsm[p.key] == WATCHING
      && (forall id :: id in s.tickets ==>
            s.tickets[id].signalId != p.signalId && (s.tickets[id].key == p.key ==> s.tickets[id].state == CLOSED))
    ensures CreateTicket(s, p, now).Done? ==>
      var s' := CreateTicket(s, p, now).store;
      && s'.tickets.Keys == s.tickets.Keys + {s.nextId} && s'.nextId == s.nextId + 1
      && (forall id :: id in s.tickets && id != s.nextId ==> s'.tickets[id] == s.tickets[id])
      && s'.fsm == s.fsm[p.key := HAS_POSITION] && s'.sessions == s.sessions
      && var t := s'.tickets[s.nextId];
      && t.key == p.key && t.signalId == p.signalId && t.parentId == None && t.state == INITIAL
      && t.direction == p.direction && t.entryPrice == p.entryPrice && t.currentSlPrice == p.slPrice
      && t.size == p.size && t.pyramidCount == 0 && t.openedAt == now && t.closing == None
  {
    assert HasActiveTicket(s, p.key) <==>
      exists id :: id in s.tickets && s.tickets[id].key == p.key && s.tickets[id].state != CLOSED;
    assert SignalUsed(s, p.signalId) <==> exists id :: id in s.tickets && s.tickets[id].signalId == p.signalId;
  }

  /** A ticket moves exactly one rung down, or from any open rung to CLOSED; only its state changes. */
  lemma TransitionLaw(s: Store, id: nat, to: TicketState)
    ensures TransitionTicket(s, id, to).Done? <==>
      && id in s.tickets && s.tickets[id].state != CLOSED
      && (|| to == CLOSED
          || (s.tickets[id].state == INITIAL && to == TP1_HIT)
          || (s.tickets[id].state == TP1_HIT && to == TP2_HIT))
    ensures TransitionTicket(s, id, to).Done? ==>
      TransitionTicket(s, id, to).store == s.(tickets := s.tickets[id := s.tickets[id].(state := to)])
  {
  }

  /**
   Closing succeeds exactly for an open ticket that cost something and whose labelling works.
   It books the gain, its share of the cost and the whole seconds held, and frees the key.
   */
  lemma CloseLaw(s: Store, id: nat, pnl: real, labelingFails: bool, now: int)
    ensures CloseTicket(s, id, pnl, labelingFails, now).Done? <==>
      && id in s.tickets && s.tickets[id].state != CLOSED
      && s.tickets[id].entryPrice * s.tickets[id].size != 0.0 && !labelingFails
    ensures CloseTicket(s, id, pnl, labelingFails, now).Done? ==>
      var (t, s') := (s.tickets[id], CloseTicket(s, id, pnl, labelingFails, now).store);
      && s'.tickets.Keys == s.tickets.Keys && s'.sessions == s.sessions && s'.nextId == s.nextId
      && (forall other :: other in s.tickets && other != id ==> s'.tickets[other] == s.tickets[other])
      && s'.fsm == (if t.key in s.fsm then s.fsm[t.key := IDLE] else s.fsm)
      && var t' := s'.tickets[id];
      && t'.state == CLOSED && t'.closing.Some? && t' == t.(state := CLOSED, closing := t'.closing)
      && t'.closing.value.pnl == pnl
      && t'.closing.value.pnlPct * (t.entryPrice * t.size) == pnl
      && 1000 * t'.closing.value.holdDurationSec <= now - t.openedAt < 1000 * (t'.closing.value.holdDurationSec + 1)
  {
    if CloseTicket(s, id, pnl, labelingFails, now).Done? {
      var cost := s.tickets[id].entryPrice * s.tickets[id].size;
      assert pnl / cost * cost == pnl;
    }
  }

  /**
   A pyramid entry succeeds exactly when the caller's row allows it, the sizing and the entry
   did, the signal is new and the parent exists. It adds a child of the caller's direction and
   prices, and stores one more than the row's count with the parent.
   */
  lemma PyramidLaw(s: Store, p: PyramidParams, max: nat, now: int)
    requires Fresh(s)
    ensures ExecutePyramid(s, p, max, now).Done? <==>
      && CanPyramid(p.row, max) && p.sized.Some? && p.entered
      && (forall id :: id in s.tickets ==> s.tickets[id].signalId != p.signalId)
      && p.parentId in s.tickets
    ensures ExecutePyramid(s, p, max, now).Done? ==>
      var s' := ExecutePyramid(s, p, max, now).store;
      && s'.fsm == s.fsm && s'.sessions == s.sessions && s'.nextId == s.nextId + 1
      && s'.tickets.Keys == s.tickets.Keys + {s.nextId}
      && (forall id :: id in s.tickets && id != p.parentId ==> s'.tickets[id] == s.tickets[id])
      && s'.tickets[p.parentId]
         == s.tickets[p.parentId].(pyramidCount := s'.tickets[p.parentId].pyramidCount)
      && s'.tickets[p.parentId].pyramidCount
         == (if p.row.pyramidCount.Some? then p.row.pyramidCount.value + 1 else 1)
      && var t := s'.tickets[s.nextId];
      && t.key == p.row.key && t.signalId == p.signalId && t.parentId == Some(p.parentId) && t.state == INITIAL
      && t.direction == p.direction && t.entryPrice == p.entryPrice && t.currentSlPrice == p.slPrice
      && t.size == p.sized.value && t.pyramidCount == 0 && t.openedAt == now && t.closing == None
  {
    hide CanPyramid;
    assert SignalUsed(s, p.signalId) <==> exists id :: id in s.tickets && s.tickets[id].signalId == p.signalId;
  }

  // ---- Sessions ----

  /** Opening ends the key's sessions, adds one, and starts watching if the key was idle. */
  lemma OpenLaw(s: Store, key: Key)
    requires Fresh(s)
    ensures var s' := OpenWatchSession(s, key);
      && s'.tickets == s.tickets && s'.nextId == s.nextId + 1
      && s'.sessions.Keys == s.sessions.Keys + {s.nextId} && s'.sessions[s.nextId] == Session(key, true)
      && (forall id :: id in s.sessions ==>
            s'.sessions[id] == if s.sessions[id].key == key then Session(key, false) else s.sessions[id])
      && s'.fsm == (if key in s.fsm && s.fsm[key] == IDLE then s.fsm[key := WATCHING] else s.fsm)
  {
    NoneLeftActive(s, key);
  }

  /** Invalidating ends that session only, and watching of its key. */
  lemma InvalidateLaw(s: Store, sessionId: nat)
    ensures var s' := InvalidateWatchSession(s, sessionId);
      && s'.tickets == s.tickets && s'.nextId == s.nextId && s'.sessions.Keys == s.sessions.Keys
      && (forall id :: id in s.sessions && id != sessionId ==> s'.sessions[id] == s.sessions[id])
      && (sessionId !in s.sessions ==> s' == s)
      && (sessionId in s.sessions ==>
            var key := s.sessions[sessionId].key;
            && s'.sessions[sessionId] == Session(key, false)
            && s'.fsm == (if key in s.fsm && s.fsm[key] == WATCHING then s.fsm[key := IDLE] else s.fsm))
  {
  }

  /** Adding a symbol gives it an IDLE row, and leaves one it has alone. */
  lemma AddSymbolLaw(s: Store, key: Key)
    ensures var s' := UpsertSymbolState(s, key, None);
      s' == s.(fsm := s'.fsm) && s'.fsm == (if key in s.fsm then s.fsm else s.fsm[key := IDLE])
  {
  }

  // ---- Which edges are taken ----

  /** Some run of whole calls from empty tables has the key in one state, and one more call puts it in the other. */
  ghost predicate Taken(key: Key, from: FsmState, to: FsmState, ops: seq<Op>, op: Op, max: nat) {
    var s := Run(EMPTY, ops, max);
    && PlainRun(ops) && IsPlain(op)
    && key in s.fsm && s.fsm[key] == from
    && key in Step(s, op, max).fsm && Step(s, op, max).fsm[key] == to
  }

  /** The symbol machine's edges are exactly the changes of state that runs of whole calls make. */
  lemma EdgesAreTaken(key: Key, from: FsmState, to: FsmState, max: nat)
    requires from != to
    ensures CanSymbolTransition(from, to) <==> exists ops, op :: Taken(key, from, to, ops, op, max)
  {
    forall ops, op | Taken(key, from, to, ops, op, max)
      ensures CanSymbolTransition(from, to)
    {
      hide Step, Run;
      EmptyIsConsistent();
      PlainRunsAreConsistent(EMPTY, ops, max);
      PlainAlongEdges(Run(EMPTY, ops, max), op, max);
    }
    if CanSymbolTransition(from, to) {
      var ops, op := EdgeWitness(key, from, to, max);
    }
  }

  lemma EdgeWitness(key: Key, from: FsmState, to: FsmState, max: nat) returns (ops: seq<Op>, op: Op)
    requires CanSymbolTransition(from, to)
    ensures Taken(key, from, to, ops, op, max)
  {
    var p := TicketParams(key, 0, LONG, 1.0, 0.5, 1.0);
    var add, open, create := AddSymbol(key), Open(key), Create(p, 0);
    var s1 := Step(EMPTY, add, max);
    var s2 := Step(s1, open, max);
    var s3 := Step(s2, create, max);
    NoneLeftActive(s1, key);
    assert [add] == [] + [add] && [add, open] == [add] + [open] && [add, open, create] == [add, open] + [create];
    RunPush(EMPTY, [], add, max);
    RunPush(EMPTY, [add], open, max);
    RunPush(EMPTY, [add, open], create, max);
    assert Run(EMPTY, [], max) == EMPTY;
    assert s1.fsm == map[key := IDLE];
    assert s2.fsm == map[key := WATCHING] && s2.sessions == map[0 := Session(key, true)];
    assert s3.fsm == map[key := HAS_POSITION] && 1 in s3.tickets && s3.tickets[1].key == key;
    match from
    case IDLE => ops, op := [add], open;
    case WATCHING =>
      ops := [add, open];
      op := if to == HAS_POSITION then create else Invalidate(0);
    case HAS_POSITION =>
      ops, op := [add, open, create], Close(1, 0.0, false, 0);
      assert CloseTicket(s3, 1, 0.0, false, 0).Done?;
  }
}
