/**
 The tickets, symbol_state and watch_session tables and the operations on them. Each
 transaction and each lone SQL statement is one atomic step; row identifiers are fresh.
 */
module TicketStore {
  import opened Core
  import opened Fsm
  import opened Keys

  datatype Key = Key(symbol: string, exchange: Exchange)

  datatype Closing = Closing(pnl: real, pnlPct: real, holdDurationSec: int)

  datatype Ticket = Ticket(
    key: Key,
    signalId: nat,
    parentId: Option<nat>,
    state: TicketState,
    direction: Direction,
    entryPrice: real,
    currentSlPrice: real,
    size: real,
    pyramidCount: nat,
    openedAt: int,
    closing: Option<Closing>)

  /** A session is active until it is invalidated. */
  datatype Session = Session(key: Key, active: bool)

  datatype Store = Store(
    tickets: map<nat, Ticket>,
    fsm: map<Key, FsmState>,
    sessions: map<nat, Session>,
    nextId: nat)

  datatype StoreError =
    | InvalidState(actual: Option<FsmState>)
    | DuplicateTicket
    | DuplicateSignal
    | TicketNotFound
    | InvalidTransition
    | DivisionByZero
    | LabelingFailed
    | DuplicateSession
    | PyramidNotAllowed
    | SizingFailed
    | EntryFailed
    | ParentNotFound

  datatype Result = Done(store: Store) | Failed(error: StoreError)

  /** A thrown error rolls its transaction back. */
  function After(s: Store, r: Result): Store {
    if r.Done? then r.store else s
  }

  // ---- Queries ----

  predicate IsActive(s: Store, id: nat) {
    id in s.tickets && s.tickets[id].state != CLOSED
  }

  predicate HasActiveTicket(s: Store, key: Key) {
    exists id :: id in s.tickets && IsActive(s, id) && s.tickets[id].key == key
  }

  predicate HasActiveSession(s: Store, key: Key) {
    exists id :: id in s.sessions && s.sessions[id].active && s.sessions[id].key == key
  }

  predicate SignalUsed(s: Store, signalId: nat) {
    exists id :: id in s.tickets && s.tickets[id].signalId == signalId
  }

  // ---- Tickets ----

  datatype TicketParams = TicketParams(key: Key, signalId: nat, direction: Direction, entryPrice: real,
                                       slPrice: real, size: real)

  function NewTicket(p: TicketParams, parentId: Option<nat>, now: int): Ticket {
    Ticket(p.key, p.signalId, parentId, INITIAL, p.direction, p.entryPrice, p.slPrice, p.size, 0, now, None)
  }

  function WithTicket(s: Store, t: Ticket): Store {
    s.(tickets := s.tickets[s.nextId := t], nextId := s.nextId + 1)
  }

  function CreateTicket(s: Store, p: TicketParams, now: int): Result {
    if p.key !in s.fsm then Failed(InvalidState(None))
    else if s.fsm[p.key] != WATCHING then Failed(InvalidState(Some(s.fsm[p.key])))
    else if HasActiveTicket(s, p.key) then Failed(DuplicateTicket)
    else if SignalUsed(s, p.signalId) then Failed(DuplicateSignal)
    else
      var inserted := WithTicket(s, NewTicket(p, None, now));
      Done(inserted.(fsm := inserted.fsm[p.key := HAS_POSITION]))
  }

  function TransitionTicket(s: Store, id: nat, newState: TicketState): Result {
    if id !in s.tickets then Failed(TicketNotFound)
    else if !CanTransition(s.tickets[id].state, newState) then Failed(InvalidTransition)
    else Done(s.(tickets := s.tickets[id := s.tickets[id].(state := newState)]))
  }

  function WithFsm(s: Store, key: Key, state: FsmState): Store {
    if key in s.fsm then s.(fsm := s.fsm[key := state]) else s
  }

  function Closed(t: Ticket, pnl: real, now: int): Ticket
    requires Cost(t.entryPrice, t.size) != 0.0
  {
    t.(state := CLOSED, closing := Some(Closing(pnl, pnl / Cost(t.entryPrice, t.size), (now - t.openedAt) / 1000)))
  }

  /** The symbol state becomes IDLE whatever it was. */
  function CloseTicket(s: Store, id: nat, pnl: real, labelingFails: bool, now: int): Result {
    if id !in s.tickets then Failed(TicketNotFound)
    else
      var t := s.tickets[id];
      if !CanTransition(t.state, CLOSED) then Failed(InvalidTransition)
      else if Cost(t.entryPrice, t.size) == 0.0 then Failed(DivisionByZero)
      else if labelingFails then Failed(LabelingFailed)
      else Done(WithFsm(s.(tickets := s.tickets[id := Closed(t, pnl, now)]), t.key, IDLE))
  }

  // ---- Pyramid entries ----

  /** A ticket row as read from the table: missing prices and a missing count are possible. */
  datatype ParentRow = ParentRow(
    key: Key,
    state: TicketState,
    direction: Direction,
    entryPrice: Option<real>,
    currentSlPrice: Option<real>,
    pyramidCount: Option<nat>)

  function CountOf(row: ParentRow): nat {
    if row.pyramidCount.Some? then row.pyramidCount.value else 0
  }

  predicate CanPyramid(row: ParentRow, maxPyramidCount: nat) {
    && (row.state == TP1_HIT || row.state == TP2_HIT)
    && row.entryPrice.Some? && row.currentSlPrice.Some?
    && (if row.direction == LONG then row.currentSlPrice.value >= row.entryPrice.value
        else row.currentSlPrice.value <= row.entryPrice.value)
    && CountOf(row) < maxPyramidCount
  }

  /** Allowed exactly between the first target and the close, with no loss left at the stop, below the maximum. */
  lemma CanPyramidIff(row: ParentRow, maxPyramidCount: nat)
    ensures CanPyramid(row, maxPyramidCount) <==>
      && 1 <= Rung(row.state) <= 2
      && row.entryPrice.Some? && row.currentSlPrice.Some?
      && Pnl(row.direction, row.entryPrice.value, row.currentSlPrice.value, 1.0) >= 0.0
      && CountOf(row) < maxPyramidCount
  {
  }

  /** `row` is the parent as the caller read it, perhaps a while ago. */
  datatype PyramidParams = PyramidParams(
    parentId: nat,
    row: ParentRow,
    signalId: nat,
    direction: Direction,
    entryPrice: real,
    slPrice: real,
    /** The size the sizer found, if any, and whether the entry succeeded. */
    sized: Option<real>,
    entered: bool)

  function ChildParams(p: PyramidParams): TicketParams
    requires p.sized.Some?
  {
    TicketParams(p.row.key, p.signalId, p.direction, p.entryPrice, p.slPrice, p.sized.value)
  }

  function ExecutePyramid(s: Store, p: PyramidParams, maxPyramidCount: nat, now: int): Result {
    if !CanPyramid(p.row, maxPyramidCount) then Failed(PyramidNotAllowed)
    else if p.sized.None? then Failed(SizingFailed)
    else if !p.entered then Failed(EntryFailed)
    else if SignalUsed(s, p.signalId) then Failed(DuplicateSignal)
    else if p.parentId !in s.tickets then Failed(ParentNotFound)
    else
      var inserted := WithTicket(s, NewTicket(ChildParams(p), Some(p.parentId), now));
      var parent := inserted.tickets[p.parentId];
      Done(inserted.(tickets := inserted.tickets[p.parentId := parent.(pyramidCount := CountOf(p.row) + 1)]))
  }

  // ---- Watch sessions, statement by statement ----

  function InvalidateActive(s: Store, key: Key): Store {
    s.(sessions := map id | id in s.sessions ::
         if s.sessions[id].key == key then s.sessions[id].(active := false) else s.sessions[id])
  }

  /** A unique index allows one active session per key. */
  function InsertSession(s: Store, key: Key): Result {
    if HasActiveSession(s, key) then Failed(DuplicateSession)
    else Done(s.(sessions := s.sessions[s.nextId := Session(key, true)], nextId := s.nextId + 1))
  }

  function MarkWatching(s: Store, key: Key): Store {
    if key in s.fsm && s.fsm[key] == IDLE then s.(fsm := s.fsm[key := WATCHING]) else s
  }

  function MarkInvalidated(s: Store, sessionId: nat): Store {
    if sessionId in s.sessions
    then s.(sessions := s.sessions[sessionId := s.sessions[sessionId].(active := false)]) else s
  }

  function IdleIfWatching(s: Store, key: Key): Store {
    if key in s.fsm && s.fsm[key] == WATCHING then s.(fsm := s.fsm[key := IDLE]) else s
  }

  /** The three statements of opening a session, run without interruption. */
  function OpenWatchSession(s: Store, key: Key): Store {
    var inserted := InsertSession(InvalidateActive(s, key), key);
    if inserted.Failed? then InvalidateActive(s, key) else MarkWatching(inserted.store, key)
  }

  function InvalidateWatchSession(s: Store, sessionId: nat): Store {
    var marked := MarkInvalidated(s, sessionId);
    if sessionId in s.sessions then IdleIfWatching(marked, s.sessions[sessionId].key) else marked
  }

  /** Inserts a row, IDLE unless stated otherwise, or overwrites the state if one is given. */
  function UpsertSymbolState(s: Store, key: Key, state: Option<FsmState>): Store {
    if state.Some? then s.(fsm := s.fsm[key := state.value])
    else if key in s.fsm then s
    else s.(fsm := s.fsm[key := IDLE])
  }

  // ---- The tables and their operations ----

  class Database {
    var tickets: map<nat, Ticket>
    var fsm: map<Key, FsmState>
    var sessions: map<nat, Session>
    var nextId: nat

    ghost function Snapshot(): Store
      reads this
    {
      Store(tickets, fsm, sessions, nextId)
    }

    constructor ()
      ensures Snapshot() == Store(map[], map[], map[], 0)
    {
      tickets, fsm, sessions, nextId := map[], map[], map[], 0;
    }

    method InsertTicket(p: TicketParams, parentId: Option<nat>, now: int) returns (id: nat)
      modifies `tickets, `nextId
      ensures Snapshot() == WithTicket(old(Snapshot()), NewTicket(p, parentId, now)) && id == old(nextId)
    {
      id := nextId;
      tickets := tickets[id := NewTicket(p, parentId, now)];
      nextId := nextId + 1;
    }

    method CreateTicketTx(p: TicketParams, now: int) returns (error: Option<StoreError>)
      modifies this
      ensures Snapshot() == After(old(Snapshot()), CreateTicket(old(Snapshot()), p, now))
      ensures error.None? <==> CreateTicket(old(Snapshot()), p, now).Done?
      ensures error.Some? ==> CreateTicket(old(Snapshot()), p, now) == Failed(error.value)
    {
      if p.key !in fsm {
        return Some(InvalidState(None));
      }
      if fsm[p.key] != WATCHING {
        return Some(InvalidState(Some(fsm[p.key])));
      }
      if exists id :: id in tickets && tickets[id].state != CLOSED && tickets[id].key == p.key {
        return Some(DuplicateTicket);
      }
      if exists id :: id in tickets && tickets[id].signalId == p.signalId {
        return Some(DuplicateSignal);
      }
      var ticketId := InsertTicket(p, None, now);
      fsm := fsm[p.key := HAS_POSITION];
      return None;
    }

    method TransitionTicketTx(id: nat, newState: TicketState) returns (error: Option<StoreError>)
      modifies `tickets
      ensures Snapshot() == After(old(Snapshot()), TransitionTicket(old(Snapshot()), id, newState))
      ensures error.None? <==> TransitionTicket(old(Snapshot()), id, newState).Done?
      ensures error.Some? ==> TransitionTicket(old(Snapshot()), id, newState) == Failed(error.value)
    {
      if id !in tickets {
        return Some(TicketNotFound);
      }
      if !CanTransition(tickets[id].state, newState) {
        return Some(InvalidTransition);
      }
      tickets := tickets[id := tickets[id].(state := newState)];
      return None;
    }

    method CloseTicketTx(id: nat, pnl: real, labelingFails: bool, now: int) returns (error: Option<StoreError>)
      modifies this
      ensures Snapshot() == After(old(Snapshot()), CloseTicket(old(Snapshot()), id, pnl, labelingFails, now))
      ensures error.None? <==> CloseTicket(old(Snapshot()), id, pnl, labelingFails, now).Done?
      ensures error.Some? ==> CloseTicket(old(Snapshot()), id, pnl, labelingFails, now) == Failed(error.value)
    {
      hide Cost;
      if id !in tickets {
        return Some(TicketNotFound);
      }
      var ticket := tickets[id];
      if !CanTransition(ticket.state, CLOSED) {
        return Some(InvalidTransition);
      }
      var notionalValue := Cost(ticket.entryPrice, ticket.size);
      if notionalValue == 0.0 {
        return Some(DivisionByZero);
      }
      var before, idle := tickets, fsm;
      var closing := Closing(pnl, pnl / notionalValue, (now - ticket.openedAt) / 1000);
      tickets := tickets[id := ticket.(state := CLOSED, closing := Some(closing))];
      if ticket.key in fsm {
        fsm := fsm[ticket.key := IDLE];
      }
      if labelingFails {
        tickets, fsm := before, idle;
        return Some(LabelingFailed);
      }
      return None;
    }

    method ExecutePyramidTx(p: PyramidParams, maxPyramidCount: nat, now: int) returns (error: Option<StoreError>)
      modifies `tickets, `nextId
      ensures Snapshot() == After(old(Snapshot()), ExecutePyramid(old(Snapshot()), p, maxPyramidCount, now))
      ensures error.None? <==> ExecutePyramid(old(Snapshot()), p, maxPyramidCount, now).Done?
      ensures error.Some? ==> ExecutePyramid(old(Snapshot()), p, maxPyramidCount, now) == Failed(error.value)
    {
      if !CanPyramid(p.row, maxPyramidCount) {
        return Some(PyramidNotAllowed);
      }
      if p.sized.None? {
        return Some(SizingFailed);
      }
      if !p.entered {
        return Some(EntryFailed);
      }
      if exists id :: id in tickets && tickets[id].signalId == p.signalId {
        return Some(DuplicateSignal);
      }
      if p.parentId !in tickets {
        return Some(ParentNotFound);
      }
      var childId := InsertTicket(ChildParams(p), Some(p.parentId), now);
      tickets := tickets[p.parentId := tickets[p.parentId].(pyramidCount := CountOf(p.row) + 1)];
      return None;
    }

    method OpenSession(key: Key) returns (error: Option<StoreError>)
      modifies this
      ensures Snapshot() == OpenWatchSession(old(Snapshot()), key) && error == None
    {
      NoneLeftActive(Snapshot(), key);
      sessions := map id | id in sessions ::
        if sessions[id].key == key then sessions[id].(active := false) else sessions[id];
      sessions := sessions[nextId := Session(key, true)];
      nextId := nextId + 1;
      if key in fsm && fsm[key] == IDLE {
        fsm := fsm[key := WATCHING];
      }
      error := None;
    }

    method InvalidateSession(sessionId: nat)
      modifies this
      ensures Snapshot() == InvalidateWatchSession(old(Snapshot()), sessionId)
    {
      if sessionId in sessions {
        var key := sessions[sessionId].key;
        sessions := sessions[sessionId := sessions[sessionId].(active := false)];
        if key in fsm && fsm[key] == WATCHING {
          fsm := fsm[key := IDLE];
        }
      }
    }
  }

  /** After invalidating, the insert of the same call cannot violate the unique index. */
  lemma NoneLeftActive(s: Store, key: Key)
    ensures !HasActiveSession(InvalidateActive(s, key), key)
  {
  }
}
