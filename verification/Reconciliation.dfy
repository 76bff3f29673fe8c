/**
 Reconciliation: the comparison of exchange positions with active tickets, one cycle acting
 on it, and the timer chain that repeats the cycle.
 */
module Reconciliation {
  import opened Core
  import opened Keys

  datatype ExchangePosition = ExchangePosition(symbol: string, exchange: Exchange, side: Direction, size: real)

  datatype TicketSnapshot = TicketSnapshot(id: string, symbol: string, exchange: Exchange,
                                           direction: Direction, createdAt: int)

  datatype MatchedPair = MatchedPair(position: ExchangePosition, ticket: TicketSnapshot)

  datatype ExclusionReason = Pending | RecentTicket

  datatype ExcludedPosition = ExcludedPosition(position: ExchangePosition, reason: ExclusionReason)

  datatype ReconciliationResult = ReconciliationResult(
    matched: seq<MatchedPair>,
    unmatched: seq<ExchangePosition>,
    orphaned: seq<TicketSnapshot>,
    excluded: seq<ExcludedPosition>)

  // ---- Keys ----

  function PositionKey(symbol: string, exchange: Exchange): string {
    Join(symbol, ExchangeName(exchange))
  }

  function DirectionName(direction: Direction): (name: string)
    ensures NoColon(name)
  {
    if direction == LONG then "LONG" else "SHORT"
  }

  function DirKey(symbol: string, exchange: Exchange, direction: Direction): string {
    Join(PositionKey(symbol, exchange), DirectionName(direction))
  }

  lemma PositionKeyInjective(s: string, e: Exchange, s': string, e': Exchange)
    ensures PositionKey(s, e) == PositionKey(s', e') <==> s == s' && e == e'
  {
    hide Join, NoColon, ExchangeName;
    JoinInjective(s, ExchangeName(e), s', ExchangeName(e'));
    ExchangeNameInjective(e, e');
  }

  /** The concatenated key tells trades apart exactly by symbol, exchange and direction. */
  lemma DirKeyInjective(s: string, e: Exchange, d: Direction, s': string, e': Exchange, d': Direction)
    ensures DirKey(s, e, d) == DirKey(s', e', d') <==> s == s' && e == e' && d == d'
  {
    hide Join, NoColon, ExchangeName, PositionKey;
    JoinInjective(PositionKey(s, e), DirectionName(d), PositionKey(s', e'), DirectionName(d'));
    PositionKeyInjective(s, e, s', e');
    assert |DirectionName(d)| == |DirectionName(d')| <==> d == d';
  }

  function TicketDirKey(t: TicketSnapshot): string {
    DirKey(t.symbol, t.exchange, t.direction)
  }

  function PositionDirKey(p: ExchangePosition): string {
    DirKey(p.symbol, p.exchange, p.side)
  }

  // ---- The classification without keys ----

  predicate SameTrade(p: ExchangePosition, t: TicketSnapshot) {
    p.symbol == t.symbol && p.exchange == t.exchange && p.side == t.direction
  }

  predicate SameMarket(p: ExchangePosition, t: TicketSnapshot) {
    p.symbol == t.symbol && p.exchange == t.exchange
  }

  predicate IsRecentTicket(t: TicketSnapshot, snapshotTime: int) {
    t.createdAt > snapshotTime
  }

  function Comparable(tickets: seq<TicketSnapshot>, snapshotTime: int): seq<TicketSnapshot> {
    if tickets == [] then []
    else
      var before, last := Comparable(tickets[..|tickets| - 1], snapshotTime), tickets[|tickets| - 1];
      if IsRecentTicket(last, snapshotTime) then before else before + [last]
  }

  predicate HasRecent(tickets: seq<TicketSnapshot>, snapshotTime: int, p: ExchangePosition) {
    exists i :: 0 <= i < |tickets| && IsRecentTicket(tickets[i], snapshotTime) && SameMarket(p, tickets[i])
  }

  /** The tickets of a position's trade, in order. */
  function TicketsOf(p: ExchangePosition, tickets: seq<TicketSnapshot>): seq<TicketSnapshot> {
    if tickets == [] then []
    else
      var before, last := TicketsOf(p, tickets[..|tickets| - 1]), tickets[|tickets| - 1];
      if SameTrade(p, last) then before + [last] else before
  }

  function PairsOf(p: ExchangePosition, tickets: seq<TicketSnapshot>): seq<MatchedPair> {
    if tickets == [] then []
    else PairsOf(p, tickets[..|tickets| - 1]) + [MatchedPair(p, tickets[|tickets| - 1])]
  }

  datatype Verdict = IsMatched | IsExcluded(reason: ExclusionReason) | IsUnmatched

  /** A trade's tickets first, then a pending order, then a recent ticket on the same market. */
  function Judge(p: ExchangePosition, tickets: seq<TicketSnapshot>, pending: set<string>, snapshotTime: int): Verdict {
    if TicketsOf(p, Comparable(tickets, snapshotTime)) != [] then IsMatched
    else if PositionKey(p.symbol, p.exchange) in pending then IsExcluded(Pending)
    else if HasRecent(tickets, snapshotTime, p) then IsExcluded(RecentTicket)
    else IsUnmatched
  }

  function Matched(ps: seq<ExchangePosition>, comparable: seq<TicketSnapshot>): seq<MatchedPair> {
    if ps == [] then []
    else Matched(ps[..|ps| - 1], comparable) + PairsOf(ps[|ps| - 1], TicketsOf(ps[|ps| - 1], comparable))
  }

  function Unmatched(ps: seq<ExchangePosition>, tickets: seq<TicketSnapshot>, pending: set<string>, snapshotTime: int)
    : seq<ExchangePosition>
  {
    if ps == [] then []
    else
      var before, p := Unmatched(ps[..|ps| - 1], tickets, pending, snapshotTime), ps[|ps| - 1];
      if Judge(p, tickets, pending, snapshotTime).IsUnmatched? then before + [p] else before
  }

  function Excluded(ps: seq<ExchangePosition>, tickets: seq<TicketSnapshot>, pending: set<string>, snapshotTime: int)
    : seq<ExcludedPosition>
  {
    if ps == [] then []
    else
      var before, p := Excluded(ps[..|ps| - 1], tickets, pending, snapshotTime), ps[|ps| - 1];
      match Judge(p, tickets, pending, snapshotTime)
      case IsExcluded(reason) => before + [ExcludedPosition(p, reason)]
      case _ => before
  }

  predicate Held(ps: seq<ExchangePosition>, t: TicketSnapshot) {
    exists i :: 0 <= i < |ps| && SameTrade(ps[i], t)
  }

  function Orphaned(comparable: seq<TicketSnapshot>, ps: seq<ExchangePosition>): seq<TicketSnapshot> {
    if comparable == [] then []
    else
      var before, last := Orphaned(comparable[..|comparable| - 1], ps), comparable[|comparable| - 1];
      if Held(ps, last) then before else before + [last]
  }

  function Classified(ps: seq<ExchangePosition>, tickets: seq<TicketSnapshot>, pending: set<string>, snapshotTime: int)
    : ReconciliationResult
  {
    ReconciliationResult(
      Matched(ps, Comparable(tickets, snapshotTime)),
      Unmatched(ps, tickets, pending, snapshotTime),
      Orphaned(Comparable(tickets, snapshotTime), ps),
      Excluded(ps, tickets, pending, snapshotTime))
  }

  // ---- The hash-indexed procedure ----

  function WithDirKey(tickets: seq<TicketSnapshot>, key: string): seq<TicketSnapshot> {
    if tickets == [] then []
    else
      var before, last := WithDirKey(tickets[..|tickets| - 1], key), tickets[|tickets| - 1];
      if TicketDirKey(last) == key then before + [last] else before
  }

  lemma {:induction false} WithDirKeyIsTicketsOf(tickets: seq<TicketSnapshot>, p: ExchangePosition)
    ensures WithDirKey(tickets, PositionDirKey(p)) == TicketsOf(p, tickets)
  {
    if tickets != [] {
      hide DirKey;
      WithDirKeyIsTicketsOf(tickets[..|tickets| - 1], p);
      var last := tickets[|tickets| - 1];
      DirKeyInjective(last.symbol, last.exchange, last.direction, p.symbol, p.exchange, p.side);
    }
  }

  lemma Longer<T>(s: seq<T>, i: nat)
    requires i < |s|
    ensures s[..i + 1] != [] && s[..i + 1][..|s[..i + 1]| - 1] == s[..i] && s[..i + 1][|s[..i + 1]| - 1] == s[i]
  {
  }

  lemma Whole<T>(s: seq<T>)
    ensures s[..|s|] == s
  {
  }

  /** The index maps exactly the trade keys in use to their tickets, in order. */
  ghost predicate Indexes(ticketsByKey: map<string, seq<TicketSnapshot>>, tickets: seq<TicketSnapshot>) {
    forall key :: (key in ticketsByKey <==> WithDirKey(tickets, key) != [])
                  && (key in ticketsByKey ==> ticketsByKey[key] == WithDirKey(tickets, key))
  }

  method SplitTickets(tickets: seq<TicketSnapshot>, snapshotTime: int)
    returns (comparable: seq<TicketSnapshot>, recentKeys: set<string>)
    ensures comparable == Comparable(tickets, snapshotTime)
    ensures forall p: ExchangePosition ::
              PositionKey(p.symbol, p.exchange) in recentKeys <==> HasRecent(tickets, snapshotTime, p)
  {
    hide PositionKey;
    comparable, recentKeys := [], {};
    for i := 0 to |tickets|
      invariant comparable == Comparable(tickets[..i], snapshotTime)
      invariant forall p: ExchangePosition ::
                  PositionKey(p.symbol, p.exchange) in recentKeys <==> HasRecent(tickets[..i], snapshotTime, p)
    {
      var t := tickets[i];
      Longer(tickets, i);
      ghost var keys := recentKeys;
      if IsRecentTicket(t, snapshotTime) {
        recentKeys := recentKeys + {PositionKey(t.symbol, t.exchange)};
      } else {
        comparable := comparable + [t];
      }
      forall p: ExchangePosition
        ensures PositionKey(p.symbol, p.exchange) in recentKeys <==> HasRecent(tickets[..i + 1], snapshotTime, p)
      {
        PositionKeyInjective(p.symbol, p.exchange, t.symbol, t.exchange);
        HasRecentStep(tickets, i, snapshotTime, p);
      }
    }
    Whole(tickets);
  }

  lemma HasRecentStep(tickets: seq<TicketSnapshot>, i: nat, snapshotTime: int, p: ExchangePosition)
    requires i < |tickets|
    ensures HasRecent(tickets[..i + 1], snapshotTime, p) <==>
      || HasRecent(tickets[..i], snapshotTime, p)
      || (IsRecentTicket(tickets[i], snapshotTime) && SameMarket(p, tickets[i]))
  {
    assert tickets[..i + 1][i] == tickets[i];
    if HasRecent(tickets[..i], snapshotTime, p) {
      var j :| 0 <= j < i && IsRecentTicket(tickets[..i][j], snapshotTime) && SameMarket(p, tickets[..i][j]);
      assert tickets[..i + 1][j] == tickets[..i][j];
    }
    if HasRecent(tickets[..i + 1], snapshotTime, p) {
      var j :| && 0 <= j < i + 1
               && IsRecentTicket(tickets[..i + 1][j], snapshotTime)
               && SameMarket(p, tickets[..i + 1][j]);
      assert j < i ==> tickets[..i][j] == tickets[..i + 1][j];
    }
  }

  method IndexTickets(comparable: seq<TicketSnapshot>) returns (ticketsByKey: map<string, seq<TicketSnapshot>>)
    ensures Indexes(ticketsByKey, comparable)
  {
    hide TicketDirKey;
    ticketsByKey := map[];
    for i := 0 to |comparable|
      invariant Indexes(ticketsByKey, comparable[..i])
    {
      Longer(comparable, i);
      var dirKey := TicketDirKey(comparable[i]);
      if dirKey in ticketsByKey {
        ticketsByKey := ticketsByKey[dirKey := ticketsByKey[dirKey] + [comparable[i]]];
      } else {
        ticketsByKey := ticketsByKey[dirKey := [comparable[i]]];
      }
    }
    Whole(comparable);
  }

  method ComparePositions(ps: seq<ExchangePosition>, activeTickets: seq<TicketSnapshot>, pending: set<string>,
                          snapshotTime: int)
    returns (result: ReconciliationResult)
    ensures result == Classified(ps, activeTickets, pending, snapshotTime)
  {
    hide PositionKey, DirKey, TicketsOf, WithDirKey, HasRecent, Held, Comparable;
    var comparable, recentKeys := SplitTickets(activeTickets, snapshotTime);
    var ticketsByKey := IndexTickets(comparable);
    var matched, unmatched, excluded := [], [], [];
    for i := 0 to |ps|
      invariant matched == Matched(ps[..i], comparable)
      invariant unmatched == Unmatched(ps[..i], activeTickets, pending, snapshotTime)
      invariant excluded == Excluded(ps[..i], activeTickets, pending, snapshotTime)
    {
      var p := ps[i];
      Longer(ps, i);
      WithDirKeyIsTicketsOf(comparable, p);
      var key, dirKey := PositionKey(p.symbol, p.exchange), PositionDirKey(p);
      if dirKey in ticketsByKey && |ticketsByKey[dirKey]| > 0 {
        var tickets := ticketsByKey[dirKey];
        var pairs := AppendPairs(matched, p, tickets);
        matched := pairs;
      } else {
        assert PairsOf(p, []) == [];
        if key in pending {
          excluded := excluded + [ExcludedPosition(p, Pending)];
          continue;
        }
        if key in recentKeys {
          excluded := excluded + [ExcludedPosition(p, RecentTicket)];
          continue;
        }
        unmatched := unmatched + [p];
      }
    }
    Whole(ps);
    var orphaned := FindOrphans(ps, comparable);
    result := ReconciliationResult(matched, unmatched, orphaned, excluded);
  }

  method AppendPairs(matched: seq<MatchedPair>, p: ExchangePosition, tickets: seq<TicketSnapshot>)
    returns (longer: seq<MatchedPair>)
    ensures longer == matched + PairsOf(p, tickets)
  {
    longer := matched;
    for i := 0 to |tickets|
      invariant longer == matched + PairsOf(p, tickets[..i])
    {
      Longer(tickets, i);
      longer := longer + [MatchedPair(p, tickets[i])];
    }
    Whole(tickets);
  }

  method FindOrphans(ps: seq<ExchangePosition>, comparable: seq<TicketSnapshot>) returns (orphaned: seq<TicketSnapshot>)
    ensures orphaned == Orphaned(comparable, ps)
  {
    hide DirKey;
    var exchangeKeys := {};
    for i := 0 to |ps|
      invariant forall key :: key in exchangeKeys <==> exists j :: 0 <= j < i && PositionDirKey(ps[j]) == key
    {
      exchangeKeys := exchangeKeys + {PositionDirKey(ps[i])};
    }
    orphaned := [];
    for i := 0 to |comparable|
      invariant orphaned == Orphaned(comparable[..i], ps)
    {
      Longer(comparable, i);
      HeldByKey(ps, comparable[i]);
      if TicketDirKey(comparable[i]) !in exchangeKeys {
        orphaned := orphaned + [comparable[i]];
      }
    }
    Whole(comparable);
  }

  lemma HeldByKey(ps: seq<ExchangePosition>, t: TicketSnapshot)
    ensures Held(ps, t) <==> exists j :: 0 <= j < |ps| && PositionDirKey(ps[j]) == TicketDirKey(t)
  {
    hide DirKey;
    forall j | 0 <= j < |ps|
      ensures SameTrade(ps[j], t) <==> PositionDirKey(ps[j]) == TicketDirKey(t)
    {
      DirKeyInjective(ps[j].symbol, ps[j].exchange, ps[j].side, t.symbol, t.exchange, t.direction);
    }
  }

  // ---- The classification is a partition ----

  lemma {:induction false} ComparableIff(tickets: seq<TicketSnapshot>, snapshotTime: int, t: TicketSnapshot)
    ensures t in Comparable(tickets, snapshotTime) <==> t in tickets && !IsRecentTicket(t, snapshotTime)
  {
    if tickets != [] {
      ComparableIff(tickets[..|tickets| - 1], snapshotTime, t);
      assert tickets == tickets[..|tickets| - 1] + [tickets[|tickets| - 1]];
    }
  }

  lemma {:induction false} TicketsOfIff(p: ExchangePosition, tickets: seq<TicketSnapshot>, t: TicketSnapshot)
    ensures t in TicketsOf(p, tickets) <==> t in tickets && SameTrade(p, t)
  {
    if tickets != [] {
      TicketsOfIff(p, tickets[..|tickets| - 1], t);
      assert tickets == tickets[..|tickets| - 1] + [tickets[|tickets| - 1]];
    }
  }

  lemma {:induction false} PairsOfIff(p: ExchangePosition, tickets: seq<TicketSnapshot>, pair: MatchedPair)
    ensures pair in PairsOf(p, tickets) <==> pair.position == p && pair.ticket in tickets
    ensures |PairsOf(p, tickets)| == |tickets|
  {
    if tickets != [] {
      PairsOfIff(p, tickets[..|tickets| - 1], pair);
      assert tickets == tickets[..|tickets| - 1] + [tickets[|tickets| - 1]];
    }
  }

  lemma {:induction false} MatchedMember(ps: seq<ExchangePosition>, comparable: seq<TicketSnapshot>, pair: MatchedPair)
    ensures pair in Matched(ps, comparable) <==>
      pair.position in ps && pair.ticket in comparable && SameTrade(pair.position, pair.ticket)
  {
    hide TicketsOf, PairsOf;
    if ps != [] {
      var last := ps[|ps| - 1];
      MatchedMember(ps[..|ps| - 1], comparable, pair);
      PairsOfIff(last, TicketsOf(last, comparable), pair);
      TicketsOfIff(last, comparable, pair.ticket);
      assert ps == ps[..|ps| - 1] + [last];
    }
  }

  /** Matched is exactly the pairs of a position and a non-recent ticket of the same trade. */
  lemma MatchedIff(ps: seq<ExchangePosition>, tickets: seq<TicketSnapshot>, pending: set<string>,
                   snapshotTime: int, pair: MatchedPair)
    ensures pair in Classified(ps, tickets, pending, snapshotTime).matched <==>
      pair.position in ps && pair.ticket in tickets && pair.ticket.createdAt <= snapshotTime
      && pair.position.symbol == pair.ticket.symbol && pair.position.exchange == pair.ticket.exchange
      && pair.position.side == pair.ticket.direction
  {
    hide Comparable, Matched;
    MatchedMember(ps, Comparable(tickets, snapshotTime), pair);
    ComparableIff(tickets, snapshotTime, pair.ticket);
  }

  ghost predicate HasComparable(p: ExchangePosition, tickets: seq<TicketSnapshot>, snapshotTime: int) {
    exists t :: t in tickets && t.createdAt <= snapshotTime && SameTrade(p, t)
  }

  lemma JudgeIff(p: ExchangePosition, tickets: seq<TicketSnapshot>, pending: set<string>, snapshotTime: int)
    ensures Judge(p, tickets, pending, snapshotTime) ==
      if HasComparable(p, tickets, snapshotTime) then IsMatched
      else if PositionKey(p.symbol, p.exchange) in pending then IsExcluded(Pending)
      else if exists t :: t in tickets && t.createdAt > snapshotTime && SameMarket(p, t) then IsExcluded(RecentTicket)
      else IsUnmatched
  {
    hide Comparable, TicketsOf, PositionKey, SameTrade, SameMarket;
    var own := TicketsOf(p, Comparable(tickets, snapshotTime));
    forall t
      ensures t in own <==> t in tickets && t.createdAt <= snapshotTime && SameTrade(p, t)
    {
      TicketsOfIff(p, Comparable(tickets, snapshotTime), t);
      ComparableIff(tickets, snapshotTime, t);
    }
    if own != [] {
      assert own[0] in own;
    }
    if t :| t in tickets && t.createdAt > snapshotTime && SameMarket(p, t) {
      var i :| 0 <= i < |tickets| && tickets[i] == t;
      assert HasRecent(tickets, snapshotTime, p);
    }
  }

  lemma {:induction false} UnmatchedMember(ps: seq<ExchangePosition>, tickets: seq<TicketSnapshot>,
                                           pending: set<string>,
                                           snapshotTime: int, p: ExchangePosition)
    ensures p in Unmatched(ps, tickets, pending, snapshotTime) <==>
      p in ps && Judge(p, tickets, pending, snapshotTime) == IsUnmatched
  {
    hide Judge;
    if ps != [] {
      UnmatchedMember(ps[..|ps| - 1], tickets, pending, snapshotTime, p);
      assert ps == ps[..|ps| - 1] + [ps[|ps| - 1]];
    }
  }

  lemma {:induction false} ExcludedMember(ps: seq<ExchangePosition>, tickets: seq<TicketSnapshot>, pending: set<string>,
                                          snapshotTime: int, x: ExcludedPosition)
    ensures x in Excluded(ps, tickets, pending, snapshotTime) <==>
      x.position in ps && Judge(x.position, tickets, pending, snapshotTime) == IsExcluded(x.reason)
  {
    hide Judge;
    if ps != [] {
      ExcludedMember(ps[..|ps| - 1], tickets, pending, snapshotTime, x);
      assert ps == ps[..|ps| - 1] + [ps[|ps| - 1]];
    }
  }

  /** A position is unmatched exactly when nothing explains it. */
  lemma UnmatchedIff(ps: seq<ExchangePosition>, tickets: seq<TicketSnapshot>, pending: set<string>,
                     snapshotTime: int, p: ExchangePosition)
    ensures p in Classified(ps, tickets, pending, snapshotTime).unmatched <==>
      && p in ps
      && !HasComparable(p, tickets, snapshotTime)
      && PositionKey(p.symbol, p.exchange) !in pending
      && !(exists t :: t in tickets && t.createdAt > snapshotTime && SameMarket(p, t))
  {
    hide Judge, Unmatched, HasComparable, SameMarket, PositionKey;
    UnmatchedMember(ps, tickets, pending, snapshotTime, p);
    JudgeIff(p, tickets, pending, snapshotTime);
  }

  /** Each position is in exactly one of matched, excluded (for one reason) and unmatched. */
  lemma PositionsPartitioned(ps: seq<ExchangePosition>, tickets: seq<TicketSnapshot>, pending: set<string>,
                             snapshotTime: int, p: ExchangePosition)
    requires p in ps
    ensures var r := Classified(ps, tickets, pending, snapshotTime);
      var inMatched := exists pair: MatchedPair :: pair in r.matched && pair.position == p;
      var inPending := ExcludedPosition(p, Pending) in r.excluded;
      var inRecent := ExcludedPosition(p, RecentTicket) in r.excluded;
      && (inMatched || inPending || inRecent || p in r.unmatched)
      && !(inMatched && (inPending || inRecent || p in r.unmatched))
      && !(inPending && inRecent) && !((inPending || inRecent) && p in r.unmatched)
  {
    hide Judge, Unmatched, Excluded, Matched, Comparable, PositionKey, SameMarket;
    var r := Classified(ps, tickets, pending, snapshotTime);
    JudgeIff(p, tickets, pending, snapshotTime);
    UnmatchedMember(ps, tickets, pending, snapshotTime, p);
    ExcludedMember(ps, tickets, pending, snapshotTime, ExcludedPosition(p, Pending));
    ExcludedMember(ps, tickets, pending, snapshotTime, ExcludedPosition(p, RecentTicket));
    forall pair: MatchedPair | pair.position == p
      ensures pair in r.matched <==>
                pair.ticket in tickets && pair.ticket.createdAt <= snapshotTime && SameTrade(p, pair.ticket)
    {
      MatchedIff(ps, tickets, pending, snapshotTime, pair);
    }
    if HasComparable(p, tickets, snapshotTime) {
      var t :| t in tickets && t.createdAt <= snapshotTime && SameTrade(p, t);
      assert MatchedPair(p, t) in r.matched;
    }
  }

  function MatchedPositions(ps: seq<ExchangePosition>, tickets: seq<TicketSnapshot>, pending: set<string>,
                            snapshotTime: int): nat {
    if ps == [] then 0
    else MatchedPositions(ps[..|ps| - 1], tickets, pending, snapshotTime)
         + if Judge(ps[|ps| - 1], tickets, pending, snapshotTime) == IsMatched then 1 else 0
  }

  /** None is lost or counted twice, repeated positions included. */
  lemma {:induction false} PositionsCounted(ps: seq<ExchangePosition>, tickets: seq<TicketSnapshot>,
                                            pending: set<string>, snapshotTime: int)
    ensures var r := Classified(ps, tickets, pending, snapshotTime);
      |ps| == MatchedPositions(ps, tickets, pending, snapshotTime) + |r.unmatched| + |r.excluded|
  {
    hide Judge;
    if ps != [] {
      PositionsCounted(ps[..|ps| - 1], tickets, pending, snapshotTime);
    }
  }

  lemma {:induction false} OrphanedMember(comparable: seq<TicketSnapshot>, ps: seq<ExchangePosition>, t: TicketSnapshot)
    ensures t in Orphaned(comparable, ps) <==> t in comparable && !Held(ps, t)
  {
    hide Held;
    if comparable != [] {
      OrphanedMember(comparable[..|comparable| - 1], ps, t);
      assert comparable == comparable[..|comparable| - 1] + [comparable[|comparable| - 1]];
    }
  }

  /** Each non-recent ticket is in exactly one of matched and orphaned; a recent one is in neither. */
  lemma TicketsPartitioned(ps: seq<ExchangePosition>, tickets: seq<TicketSnapshot>, pending: set<string>,
                           snapshotTime: int, t: TicketSnapshot)
    requires t in tickets
    ensures var r := Classified(ps, tickets, pending, snapshotTime);
      var inMatched := exists pair: MatchedPair :: pair in r.matched && pair.ticket == t;
      if t.createdAt <= snapshotTime then inMatched != (t in r.orphaned) else !inMatched && t !in r.orphaned
  {
    hide Judge, Unmatched, Excluded, Matched, Comparable, Orphaned;
    var r := Classified(ps, tickets, pending, snapshotTime);
    OrphanedMember(Comparable(tickets, snapshotTime), ps, t);
    ComparableIff(tickets, snapshotTime, t);
    forall pair: MatchedPair | pair.ticket == t
      ensures pair in r.matched <==> pair.position in ps && t.createdAt <= snapshotTime && SameTrade(pair.position, t)
    {
      MatchedIff(ps, tickets, pending, snapshotTime, pair);
    }
    if t.createdAt <= snapshotTime && Held(ps, t) {
      var i :| 0 <= i < |ps| && SameTrade(ps[i], t);
      assert MatchedPair(ps[i], t) in r.matched;
    }
  }

  // ---- One cycle ----

  datatype Fetch = Fetched(positions: seq<ExchangePosition>) | FetchFailed

  function AllPositions(fetches: seq<Fetch>): seq<ExchangePosition> {
    if fetches == [] then []
    else AllPositions(fetches[..|fetches| - 1])
         + if fetches[|fetches| - 1].Fetched? then fetches[|fetches| - 1].positions else []
  }

  /** A position is compared exactly when a fetch that succeeded returned it; each fetch adds its own, in order. */
  lemma {:induction false} AllPositionsIff(fetches: seq<Fetch>, p: ExchangePosition)
    ensures p in AllPositions(fetches) <==>
      exists i :: 0 <= i < |fetches| && fetches[i].Fetched? && p in fetches[i].positions
    ensures forall i :: 0 <= i < |fetches| ==>
      AllPositions(fetches[..i + 1]) == AllPositions(fetches[..i])
                                        + if fetches[i].Fetched? then fetches[i].positions else []
  {
    if fetches != [] {
      var before := fetches[..|fetches| - 1];
      AllPositionsIff(before, p);
      assert forall i :: 0 <= i < |before| ==> fetches[i] == before[i];
      if i :| 0 <= i < |fetches| && fetches[i].Fetched? && p in fetches[i].positions {
        assert i < |before| ==> before[i] == fetches[i];
      }
      forall i | 0 <= i < |fetches|
        ensures AllPositions(fetches[..i + 1]) == AllPositions(fetches[..i])
                                                  + if fetches[i].Fetched? then fetches[i].positions else []
      {
        Longer(fetches, i);
      }
    }
  }

  /** The exchange errors of a cycle are the fetches that failed. */
  lemma {:induction false} FetchErrorsCount(fetches: seq<Fetch>)
    ensures FetchErrors(fetches) == |set i | 0 <= i < |fetches| && fetches[i].FetchFailed?|
  {
    var failed := set i | 0 <= i < |fetches| && fetches[i].FetchFailed?;
    if fetches == [] {
      assert failed == {};
    } else {
      var before, last := fetches[..|fetches| - 1], |fetches| - 1;
      FetchErrorsCount(before);
      var earlier := set i | 0 <= i < |before| && before[i].FetchFailed?;
      assert failed == earlier + if fetches[last].FetchFailed? then {last} else {};
    }
  }

  function FetchErrors(fetches: seq<Fetch>): nat {
    if fetches == [] then 0
    else FetchErrors(fetches[..|fetches| - 1]) + if fetches[|fetches| - 1].FetchFailed? then 1 else 0
  }

  function CountFailed(n: nat, ok: nat -> bool): nat {
    if n == 0 then 0 else CountFailed(n - 1, ok) + if ok(n - 1) then 0 else 1
  }

  /** The failures counted are the attempts that were not answered well. */
  lemma {:induction false} CountFailedIs(n: nat, ok: nat -> bool)
    ensures CountFailed(n, ok) == |set i: nat | i < n && !ok(i)|
  {
    var failed := set i: nat | i < n && !ok(i);
    if n == 0 {
      assert failed == {};
    } else {
      CountFailedIs(n - 1, ok);
      var earlier := set i: nat | i < n - 1 && !ok(i);
      assert failed == earlier + if ok(n - 1) then {} else {n - 1};
    }
  }

  /** How each awaited action, with the event it logs, ended; true when neither threw. */
  datatype Answers = Answers(closeOk: nat -> bool, idleOk: nat -> bool, matchedEventOk: bool)

  datatype RunResult = RunResult(
    comparison: ReconciliationResult,
    exchangeErrors: nat,
    actionErrors: nat,
    /** Positions for which an emergency close was called, and tickets set idle, in order. */
    closeCalls: seq<ExchangePosition>,
    idleCalls: seq<TicketSnapshot>)

  function WithAdapter(ps: seq<ExchangePosition>, adapters: set<Exchange>): seq<ExchangePosition> {
    if ps == [] then []
    else
      var before, p := WithAdapter(ps[..|ps| - 1], adapters), ps[|ps| - 1];
      if p.exchange in adapters then before + [p] else before
  }

  /** No result when reading the tickets or pending symbols throws: the cycle then acts on nothing. */
  method RunOnce(fetches: seq<Fetch>, stored: Option<(seq<TicketSnapshot>, set<string>)>, adapters: set<Exchange>,
                 snapshotTime: int, answers: Answers) returns (result: Option<RunResult>)
    ensures result.Some? <==> stored.Some?
    ensures result.Some? ==>
      var r := result.value;
      && r.comparison == Classified(AllPositions(fetches), stored.value.0, stored.value.1, snapshotTime)
      && r.closeCalls == WithAdapter(r.comparison.unmatched, adapters)
      && r.idleCalls == r.comparison.orphaned
      && r.exchangeErrors == FetchErrors(fetches)
      && r.actionErrors
         == |r.comparison.unmatched| - |r.closeCalls|
            + CountFailed(|r.closeCalls|, answers.closeOk) + CountFailed(|r.idleCalls|, answers.idleOk)
            + if (r.comparison.matched != [] || r.comparison.unmatched == []) && !answers.matchedEventOk then 1 else 0
  {
    hide Classified;
    var positions, errors := [], 0;
    for i := 0 to |fetches|
      invariant positions == AllPositions(fetches[..i])
      invariant errors == FetchErrors(fetches[..i])
    {
      Longer(fetches, i);
      if fetches[i].Fetched? {
        positions := positions + fetches[i].positions;
      } else {
        errors := errors + 1;
      }
    }
    Whole(fetches);
    if stored.None? {
      return None;
    }
    var comparison := ComparePositions(positions, stored.value.0, stored.value.1, snapshotTime);
    var closeCalls, actionErrors := [], 0;
    for i := 0 to |comparison.unmatched|
      invariant closeCalls == WithAdapter(comparison.unmatched[..i], adapters)
      invariant actionErrors == i - |closeCalls| + CountFailed(|closeCalls|, answers.closeOk)
    {
      Longer(comparison.unmatched, i);
      var p := comparison.unmatched[i];
      if p.exchange !in adapters {
        actionErrors := actionErrors + 1;
        continue;
      }
      if !answers.closeOk(|closeCalls|) {
        actionErrors := actionErrors + 1;
      }
      closeCalls := closeCalls + [p];
    }
    Whole(comparison.unmatched);
    var idleCalls, closeErrors := [], actionErrors;
    for i := 0 to |comparison.orphaned|
      invariant idleCalls == comparison.orphaned[..i]
      invariant actionErrors == closeErrors + CountFailed(i, answers.idleOk)
    {
      if !answers.idleOk(i) {
        actionErrors := actionErrors + 1;
      }
      idleCalls := idleCalls + [comparison.orphaned[i]];
    }
    if |comparison.matched| > 0 || |comparison.unmatched| == 0 {
      if !answers.matchedEventOk {
        actionErrors := actionErrors + 1;
      }
    }
    result := Some(RunResult(comparison, errors, actionErrors, closeCalls, idleCalls));
  }

  lemma {:induction false} WithAdapterMember(ps: seq<ExchangePosition>, adapters: set<Exchange>, p: ExchangePosition)
    ensures p in WithAdapter(ps, adapters) <==> p in ps && p.exchange in adapters
  {
    if ps != [] {
      WithAdapterMember(ps[..|ps| - 1], adapters, p);
      assert ps == ps[..|ps| - 1] + [ps[|ps| - 1]];
    }
  }

  /**
   A cycle never closes a position that has a ticket in its direction, recent or not, nor one
   whose market has a pending order or a ticket created after the snapshot.
   */
  lemma PanicCloseIsSafe(ps: seq<ExchangePosition>, tickets: seq<TicketSnapshot>, pending: set<string>,
                         snapshotTime: int,
                         adapters: set<Exchange>, p: ExchangePosition)
    requires p in WithAdapter(Classified(ps, tickets, pending, snapshotTime).unmatched, adapters)
    ensures forall t :: t in tickets && SameMarket(p, t) ==> p.side != t.direction && t.createdAt <= snapshotTime
    ensures PositionKey(p.symbol, p.exchange) !in pending
    ensures p in ps && p.exchange in adapters
  {
    hide Unmatched, PositionKey;
    WithAdapterMember(Classified(ps, tickets, pending, snapshotTime).unmatched, adapters, p);
    UnmatchedIff(ps, tickets, pending, snapshotTime, p);
  }

  // ---- The timer chain ----

  /** `timerId` may name a timer that has fired; `armed` is the timer still pending, if any. */
  datatype Chain = Chain(stopped: bool, timerId: Option<nat>, armed: Option<nat>, cyclesRunning: nat,
                         started: nat, nextTimer: nat)

  datatype ChainEvent = TimerFires | CycleEnds | Stop

  const STARTED := Chain(false, Some(0), Some(0), 0, 0, 1)

  predicate ChainEnabled(c: Chain, e: ChainEvent) {
    match e
    case TimerFires => c.armed.Some?
    case CycleEnds => c.cyclesRunning > 0
    case Stop => true
  }

  function ChainNext(c: Chain, e: ChainEvent): Chain
    requires ChainEnabled(c, e)
  {
    match e
    case TimerFires =>
      if c.stopped then c.(armed := None)
      else c.(armed := None, cyclesRunning := c.cyclesRunning + 1, started := c.started + 1)
    case CycleEnds =>
      var ended := c.(cyclesRunning := c.cyclesRunning - 1);
      if c.stopped then ended
      else ended.(timerId := Some(c.nextTimer), armed := Some(c.nextTimer), nextTimer := c.nextTimer + 1)
    case Stop =>
      c.(stopped := true, timerId := None, armed := if c.armed == c.timerId then None else c.armed)
  }

  ghost predicate ChainInv(c: Chain) {
    && (if c.armed.Some? then c.cyclesRunning == 0 else c.cyclesRunning <= 1)
    && (c.armed.Some? ==> c.armed == c.timerId && !c.stopped)
    && (!c.stopped ==> c.armed.Some? || c.cyclesRunning == 1)
  }

  predicate ChainPossible(c: Chain, events: seq<ChainEvent>)
    decreases |events|
  {
    events != [] ==> ChainEnabled(c, events[0]) && ChainPossible(ChainNext(c, events[0]), events[1..])
  }

  function ChainRun(c: Chain, events: seq<ChainEvent>): Chain
    requires ChainPossible(c, events)
    decreases |events|
  {
    if events == [] then c else ChainRun(ChainNext(c, events[0]), events[1..])
  }

  /** Cycles never overlap, a timer is never armed during one, and while not stopped one of both is there. */
  lemma {:induction false} CyclesNeverOverlap(c: Chain, events: seq<ChainEvent>)
    requires ChainInv(c) && ChainPossible(c, events)
    ensures var c' := ChainRun(c, events);
      && ChainInv(c') && c'.cyclesRunning + (if c'.armed.Some? then 1 else 0) <= 1
      && (!c'.stopped ==> c'.cyclesRunning + (if c'.armed.Some? then 1 else 0) == 1)
    decreases |events|
  {
    if events != [] {
      CyclesNeverOverlap(ChainNext(c, events[0]), events[1..]);
    }
  }

  lemma StartedInv()
    ensures ChainInv(STARTED)
  {
  }

  /** So a started worker never runs two cycles at once, and keeps going until it is stopped. */
  lemma WorkerNeverOverlaps(events: seq<ChainEvent>)
    requires ChainPossible(STARTED, events)
    ensures var c := ChainRun(STARTED, events);
      && c.cyclesRunning + (if c.armed.Some? then 1 else 0) <= 1
      && (!c.stopped ==> c.cyclesRunning == 1 || c.armed.Some?)
  {
    hide ChainNext, ChainRun;
    StartedInv();
    CyclesNeverOverlap(STARTED, events);
  }

  /** Until it is stopped, there is always a timer that can fire or a cycle that can end. */
  lemma NeverStuck(c: Chain)
    requires ChainInv(c) && !c.stopped
    ensures ChainEnabled(c, TimerFires) <==> !ChainEnabled(c, CycleEnds)
  {
  }

  /** Every timer that fires before the stop starts one cycle, and nothing else starts any. */
  lemma {:induction false} CyclesStarted(c: Chain, events: seq<ChainEvent>)
    requires !c.stopped && ChainPossible(c, events) && Stop !in events
    ensures ChainRun(c, events).started == c.started + multiset(events)[TimerFires]
    ensures !ChainRun(c, events).stopped
    decreases |events|
  {
    if events != [] {
      assert events == [events[0]] + events[1..];
      CyclesStarted(ChainNext(c, events[0]), events[1..]);
    }
  }

  /** After a stop no cycle starts and no timer is armed, whatever was going on. */
  lemma StopIsFinal(c: Chain, events: seq<ChainEvent>)
    requires ChainInv(c) && ChainPossible(ChainNext(c, Stop), events)
    ensures var c' := ChainRun(ChainNext(c, Stop), events);
      c'.started == c.started && c'.armed.None? && c'.cyclesRunning <= c.cyclesRunning
  {
    StoppedStays(ChainNext(c, Stop), events);
  }

  lemma {:induction false} StoppedStays(c: Chain, events: seq<ChainEvent>)
    requires c.stopped && c.armed.None? && ChainPossible(c, events)
    ensures var c' := ChainRun(c, events);
      c'.stopped && c'.started == c.started && c'.armed.None? && c'.cyclesRunning <= c.cyclesRunning
    decreases |events|
  {
    if events != [] {
      StoppedStays(ChainNext(c, events[0]), events[1..]);
    }
  }

  class ReconciliationHandle {
    var stopped: bool
    var timerId: Option<nat>
    ghost var armed: Option<nat>
    ghost var cyclesRunning: nat
    ghost var started: nat
    var nextTimer: nat

    ghost function Snapshot(): Chain
      reads this
    {
      Chain(stopped, timerId, armed, cyclesRunning, started, nextTimer)
    }

    constructor ()
      ensures Snapshot() == STARTED
    {
      stopped, timerId, armed, cyclesRunning, started, nextTimer := false, Some(0), Some(0), 0, 0, 1;
    }

    /** The part of the cycle before `runOnce`. */
    method OnTimer()
      requires ChainEnabled(Snapshot(), TimerFires)
      modifies this
      ensures Snapshot() == ChainNext(old(Snapshot()), TimerFires)
    {
      armed := None;
      if stopped {
        return;
      }
      cyclesRunning := cyclesRunning + 1;
      started := started + 1;
    }

    /** The part of the cycle after `runOnce` returned or threw. */
    method OnCycleEnd()
      requires ChainEnabled(Snapshot(), CycleEnds)
      modifies this
      ensures Snapshot() == ChainNext(old(Snapshot()), CycleEnds)
    {
      cyclesRunning := cyclesRunning - 1;
      if !stopped {
        timerId := Some(nextTimer);
        armed := timerId;
        nextTimer := nextTimer + 1;
      }
    }

    method StopWorker()
      modifies this
      ensures Snapshot() == ChainNext(old(Snapshot()), Stop)
    {
      stopped := true;
      if timerId.Some? {
        if armed == timerId {
          armed := None;
        }
        timerId := None;
      }
    }
  }
}
