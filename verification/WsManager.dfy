/**
 One managed WebSocket connection: its event handlers, its reconnect timer and its backoff,
 against an environment that opens sockets, closes them and fires timers in any order.
 */
module WsManager {
  import opened Core

  const BACKOFF_STEPS_MS := [1000, 2000, 4000, 8000, 16000, 30000]

  function BackoffMs(attempt: nat): (delay: int)
    ensures 1000 <= delay <= 30000
    ensures attempt == 0 ==> delay == 1000
    ensures attempt > 0 ==> delay == 30000 || delay == 2 * BackoffMs(attempt - 1)
  {
    BACKOFF_STEPS_MS[if attempt < |BACKOFF_STEPS_MS| - 1 then attempt else |BACKOFF_STEPS_MS| - 1]
  }

  predicate NormalClose(code: int) {
    code == 1000 || code == 1001
  }

  /** The connection's fields, then what the environment knows about it. */
  datatype State = State(
    ws: Option<nat>,
    intentionallyClosed: bool,
    reconnectAttempt: nat,
    reconnectTimer: Option<int>,
    isConnected: bool,
    isFirstConnection: bool,
    /** Sockets whose close event has not been delivered, and whether each has opened. */
    live: map<nat, bool>,
    created: nat,
    /** Retry delays scheduled since the backoff was last reset. */
    delays: seq<int>,
    /** The last socket closed normally, or could not be constructed. */
    ended: bool)

  /** Right after `connect`, which creates the first socket. */
  const CONNECTED_ONCE := State(Some(0), false, 0, None, false, true, map[0 := false], 1, [], false)

  datatype Event =
    | SocketOpens(id: nat)
    | SocketCloses(id: nat, code: int)
    | TimerFires(constructed: bool)
    | Close

  /** A socket opens at most once and closes once; only a pending timer fires. */
  predicate Enabled(s: State, e: Event) {
    match e
    case SocketOpens(id) => id in s.live && !s.live[id]
    case SocketCloses(id, _) => id in s.live
    case TimerFires(_) => s.reconnectTimer.Some?
    case Close => true
  }

  function Next(s: State, e: Event): State
    requires Enabled(s, e)
  {
    match e
    case SocketOpens(id) =>
      var open := s.(live := s.live[id := true]);
      if s.intentionallyClosed then open
      else if s.isFirstConnection then open.(isConnected := true, isFirstConnection := false)
      else open.(isConnected := true, reconnectAttempt := 0, delays := [])
    case SocketCloses(id, code) =>
      var closed := s.(isConnected := false, live := s.live - {id});
      if s.intentionallyClosed then closed
      else if NormalClose(code) then closed.(ended := true)
      else
        var delay := BackoffMs(s.reconnectAttempt);
        closed.(reconnectAttempt := s.reconnectAttempt + 1,
                reconnectTimer := Some(delay), delays := s.delays + [delay])
    case TimerFires(constructed) =>
      var fired := s.(reconnectTimer := None);
      if s.intentionallyClosed then fired
      else if constructed
      then fired.(ws := Some(s.created), live := s.live[s.created := false], created := s.created + 1)
      else fired.(ended := true)
    case Close =>
      s.(intentionallyClosed := true, reconnectTimer := None, isConnected := false)
  }

  predicate Possible(s: State, events: seq<Event>)
    decreases |events|
  {
    events != [] ==> Enabled(s, events[0]) && Possible(Next(s, events[0]), events[1..])
  }

  function Run(s: State, events: seq<Event>): State
    requires Possible(s, events)
    decreases |events|
  {
    if events == [] then s else Run(Next(s, events[0]), events[1..])
  }

  // ---- What holds in every reachable state ----

  /** At most one live socket, which is the latest one. */
  ghost predicate OneSocket(s: State) {
    && (forall id :: id in s.live ==> s.ws == Some(id))
    && (forall id :: id in s.live ==> id < s.created)
    && s.ws.Some?
  }

  /** Connected means exactly that the latest socket is open and was not closed on purpose. */
  ghost predicate ConnectedIffOpen(s: State) {
    s.isConnected <==> !s.intentionallyClosed && s.ws.Some? && s.ws.value in s.live && s.live[s.ws.value]
  }

  /** Unless closed on purpose, exactly one of: a live socket, a pending retry, the end. */
  ghost predicate OneActivity(s: State) {
    && (s.reconnectTimer.Some? ==> s.live == map[] && !s.ended && !s.intentionallyClosed)
    && (s.ended ==> s.live == map[])
    && (s.intentionallyClosed || s.live != map[] || s.reconnectTimer.Some? || s.ended)
  }

  /** The delays since the last reset are the backoff steps in order. */
  ghost predicate BackoffInOrder(s: State) {
    && s.reconnectAttempt == |s.delays|
    && (forall i :: 0 <= i < |s.delays| ==> s.delays[i] == BackoffMs(i))
    && (s.reconnectTimer.Some? ==> s.delays != [] && s.reconnectTimer.value == s.delays[|s.delays| - 1])
  }

  ghost predicate Inv(s: State) {
    OneSocket(s) && ConnectedIffOpen(s) && OneActivity(s) && BackoffInOrder(s)
  }

  lemma NextKeepsInv(s: State, e: Event)
    requires Inv(s) && Enabled(s, e)
    ensures Inv(Next(s, e))
  {
    hide BackoffMs;
    var t := Next(s, e);
    match e
    case SocketOpens(id) =>
      assert id in s.live && id in t.live;
    case SocketCloses(id, _) =>
      assert forall other :: other in s.live ==> other == id;
      assert t.live == map[];
    case TimerFires(constructed) =>
      assert constructed ==> s.created in t.live;
    case Close =>
  }

  lemma {:induction false} RunKeepsInv(s: State, events: seq<Event>)
    requires Inv(s) && Possible(s, events)
    ensures Inv(Run(s, events))
    decreases |events|
  {
    hide Next, Inv, Enabled;
    if events != [] {
      NextKeepsInv(s, events[0]);
      RunKeepsInv(Next(s, events[0]), events[1..]);
    }
  }

  lemma InitialInv()
    ensures Inv(CONNECTED_ONCE)
  {
  }

  /** In every event order: one socket, never a timer beside it, connected exactly when open. */
  lemma RunIsSafe(events: seq<Event>)
    requires Possible(CONNECTED_ONCE, events)
    ensures var s := Run(CONNECTED_ONCE, events);
      && |s.live| <= 1
      && (s.reconnectTimer.Some? ==> s.live == map[])
      && (s.isConnected <==>
            !s.intentionallyClosed && s.ws.Some? && s.ws.value in s.live && s.live[s.ws.value])
      && (!s.intentionallyClosed && !s.ended ==> s.live != map[] || s.reconnectTimer.Some?)
  {
    InitialInv();
    RunKeepsInv(CONNECTED_ONCE, events);
    AtMostOne(Run(CONNECTED_ONCE, events));
  }

  lemma AtMostOne(s: State)
    requires OneSocket(s)
    ensures |s.live| <= 1
  {
    if s.live != map[] {
      assert s.live.Keys == {s.ws.value};
      assert |s.live| == |s.live.Keys|;
    }
  }

  /** Delays never exceed thirty seconds and do not decrease until a reconnect opens. */
  lemma RetryDelays(events: seq<Event>)
    requires Possible(CONNECTED_ONCE, events)
    ensures var s := Run(CONNECTED_ONCE, events);
      && (forall i :: 0 <= i < |s.delays| ==> 1000 <= s.delays[i] <= 30000)
      && (forall i, j :: 0 <= i <= j < |s.delays| ==> s.delays[i] <= s.delays[j])
      && (s.reconnectTimer.Some? ==> s.delays != [] && s.reconnectTimer.value == s.delays[|s.delays| - 1])
  {
    InitialInv();
    RunKeepsInv(CONNECTED_ONCE, events);
  }

  /** Once closed on purpose, no event order creates a socket, arms a timer or reconnects. */
  lemma {:induction false} ClosedForGood(s: State, events: seq<Event>)
    requires s.intentionallyClosed && s.reconnectTimer == None && !s.isConnected
    requires Possible(s, events)
    ensures var t := Run(s, events);
      t.intentionallyClosed && t.reconnectTimer == None && !t.isConnected && t.created == s.created
    decreases |events|
  {
    if events != [] {
      ClosedForGood(Next(s, events[0]), events[1..]);
    }
  }

  lemma CloseThenSilence(s: State, events: seq<Event>)
    requires Possible(Next(s, Close), events)
    ensures var t := Run(Next(s, Close), events);
      t.created == s.created && !t.isConnected && t.reconnectTimer == None
  {
    ClosedForGood(Next(s, Close), events);
  }

  /** A socket that has not opened can, and then the connection is up unless closed on purpose. */
  lemma OpenConnects(s: State, id: nat)
    requires Inv(s) && id in s.live
    ensures Enabled(s, SocketOpens(id)) <==> !s.live[id]
    ensures !s.live[id] ==>
      var t := Next(s, SocketOpens(id));
      && (t.isConnected <==> !s.intentionallyClosed)
      && t.isFirstConnection == (s.isFirstConnection && s.intentionallyClosed)
      && t.ws == s.ws && t.created == s.created && t.reconnectTimer == s.reconnectTimer
  {
  }

  // ---- When a retry is scheduled ----

  /**
   A close schedules a retry exactly when nobody closed the connection on purpose and the close
   code is neither 1000 nor 1001; its delay is one second doubled for every failure since the
   last restart, and thirty seconds from the sixth on.
   */
  lemma RetryIff(s: State, id: nat, code: int)
    requires Inv(s) && Enabled(s, SocketCloses(id, code))
    ensures var t := Next(s, SocketCloses(id, code));
      && (t.reconnectTimer.Some? <==> !s.intentionallyClosed && code != 1000 && code != 1001)
      && (t.reconnectTimer.Some? ==>
            && t.reconnectTimer.value == (if s.reconnectAttempt < 5 then 1000 * Doubled(s.reconnectAttempt) else 30000)
            && t.reconnectAttempt == s.reconnectAttempt + 1)
      && (t.reconnectTimer.None? ==> t.reconnectAttempt == s.reconnectAttempt)
      && (t.ended <==> s.ended || (!s.intentionallyClosed && (code == 1000 || code == 1001)))
  {
    assert s.live != map[];
    assert Doubled(1) == 2 && Doubled(2) == 4 && Doubled(3) == 8 && Doubled(4) == 16;
  }

  function Doubled(n: nat): nat {
    if n == 0 then 1 else 2 * Doubled(n - 1)
  }

  // ---- When the backoff restarts ----

  /**
   An open restarts the backoff at one second exactly when some socket had opened before or
   nothing had failed yet: the first open after failed first attempts keeps the long delay.
   */
  lemma OpenRestartsBackoffIff(s: State, id: nat, code: int)
    requires Inv(s) && Enabled(s, SocketOpens(id)) && !s.intentionallyClosed && !NormalClose(code)
    ensures var open := Next(s, SocketOpens(id));
            && Enabled(open, SocketCloses(id, code))
            && (Next(open, SocketCloses(id, code)).reconnectTimer == Some(1000)
                <==> !s.isFirstConnection || s.reconnectAttempt == 0)
  {
  }

  // ---- The connection object ----

  class WsConnection {
    var ws: Option<nat>
    var intentionallyClosed: bool
    var reconnectAttempt: nat
    var reconnectTimer: Option<int>
    var isConnected: bool
    var isFirstConnection: bool
    ghost var live: map<nat, bool>
    var created: nat
    ghost var delays: seq<int>
    ghost var ended: bool

    ghost function Snapshot(): State
      reads this
    {
      State(ws, intentionallyClosed, reconnectAttempt, reconnectTimer, isConnected, isFirstConnection,
            live, created, delays, ended)
    }

    constructor ()
      ensures Snapshot() == CONNECTED_ONCE
    {
      intentionallyClosed, reconnectAttempt, reconnectTimer := false, 0, None;
      isConnected, isFirstConnection, delays, ended := false, true, [], false;
      ws, live, created := None, map[], 0;
      new;
      CreateSocket();
    }

    method CreateSocket()
      modifies `ws, `live, `created
      ensures ws == Some(old(created)) && created == old(created) + 1 && live == old(live)[old(created) := false]
    {
      ws := Some(created);
      live := live[created := false];
      created := created + 1;
    }

    method OnOpen(id: nat)
      requires Enabled(Snapshot(), SocketOpens(id))
      modifies this
      ensures Snapshot() == Next(old(Snapshot()), SocketOpens(id))
    {
      live := live[id := true];
      if intentionallyClosed {
        return;
      }
      isConnected := true;
      var wasReconnect := !isFirstConnection;
      isFirstConnection := false;
      if wasReconnect {
        reconnectAttempt := 0;
        delays := [];
      }
    }

    method OnClose(id: nat, code: int)
      requires Enabled(Snapshot(), SocketCloses(id, code))
      modifies this
      ensures Snapshot() == Next(old(Snapshot()), SocketCloses(id, code))
    {
      live := live - {id};
      isConnected := false;
      if intentionallyClosed {
        return;
      }
      if NormalClose(code) {
        ended := true;
        return;
      }
      var delayMs := BackoffMs(reconnectAttempt);
      reconnectAttempt := reconnectAttempt + 1;
      ScheduleReconnect(delayMs);
    }

    method ScheduleReconnect(delayMs: int)
      modifies `reconnectTimer, `delays
      ensures reconnectTimer == Some(delayMs) && delays == old(delays) + [delayMs]
    {
      ClearReconnectTimer();
      reconnectTimer := Some(delayMs);
      delays := delays + [delayMs];
    }

    method ClearReconnectTimer()
      modifies `reconnectTimer
      ensures reconnectTimer == None
    {
      if reconnectTimer.Some? {
        reconnectTimer := None;
      }
    }

    method OnTimer(constructed: bool)
      requires Enabled(Snapshot(), TimerFires(constructed))
      modifies this
      ensures Snapshot() == Next(old(Snapshot()), TimerFires(constructed))
    {
      reconnectTimer := None;
      if intentionallyClosed {
        return;
      }
      if constructed {
        CreateSocket();
      } else {
        ended := true;
      }
    }

    method CloseConnection()
      modifies this
      ensures Snapshot() == Next(old(Snapshot()), Close)
    {
      intentionallyClosed := true;
      ClearReconnectTimer();
      isConnected := false;
    }
  }
}
