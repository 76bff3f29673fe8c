/** The abstract state machines of tickets and of symbol states. */
module Fsm {
  import opened Core

  datatype TicketState = INITIAL | TP1_HIT | TP2_HIT | CLOSED

  datatype FsmEvent = Tp1HitEvent | Tp2HitEvent | CloseEvent

  datatype FsmState = IDLE | WATCHING | HAS_POSITION

  function Transitions(from: TicketState): set<TicketState> {
    match from
    case INITIAL => {TP1_HIT, CLOSED}
    case TP1_HIT => {TP2_HIT, CLOSED}
    case TP2_HIT => {CLOSED}
    case CLOSED => {}
  }

  predicate CanTransition(from: TicketState, to: TicketState) {
    to in Transitions(from)
  }

  /** None stands for the thrown error. */
  function NextState(current: TicketState, event: FsmEvent): Option<TicketState> {
    match (current, event)
    case (INITIAL, Tp1HitEvent) => Some(TP1_HIT)
    case (TP1_HIT, Tp2HitEvent) => Some(TP2_HIT)
    case (INITIAL, CloseEvent) => Some(CLOSED)
    case (TP1_HIT, CloseEvent) => Some(CLOSED)
    case (TP2_HIT, CloseEvent) => Some(CLOSED)
    case _ => None
  }

  function EventTarget(event: FsmEvent): TicketState {
    match event
    case Tp1HitEvent => TP1_HIT
    case Tp2HitEvent => TP2_HIT
    case CloseEvent => CLOSED
  }

  /** The event table and the transition table allow the same moves. */
  lemma TablesAgree(current: TicketState, event: FsmEvent)
    ensures NextState(current, event) ==
            if CanTransition(current, EventTarget(event)) then Some(EventTarget(event)) else None
  {
  }

  /** How many steps down the ladder a state is. */
  function Rung(state: TicketState): nat {
    match state
    case INITIAL => 0
    case TP1_HIT => 1
    case TP2_HIT => 2
    case CLOSED => 3
  }

  function SymbolTransitions(from: FsmState): set<FsmState> {
    match from
    case IDLE => {WATCHING}
    case WATCHING => {HAS_POSITION, IDLE}
    case HAS_POSITION => {IDLE}
  }

  predicate CanSymbolTransition(from: FsmState, to: FsmState) {
    to in SymbolTransitions(from)
  }
}
