/** The connection table of the event loop: token allocation, connection limit, idle sweep. */
module Connections {
  import opened Bytes

  const FIRST_CONN_TOKEN := 2

  /** Tokens of live connections with the time of their last activity. */
  type Live = map<nat, nat>

  datatype TimeoutConfig = TimeoutConfig(normalTimeout: nat, pressureTimeout: nat, pressureHeadroom: nat)

  // ----- tokens form a cycle -----

  predicate IsToken(t: nat) { FIRST_CONN_TOKEN <= t < TWO_64 }

  /** `wrapping_add(1)` with the reserved tokens skipped. */
  function After(t: nat): (r: nat)
    requires IsToken(t)
    ensures IsToken(r)
  {
    if t + 1 == TWO_64 then FIRST_CONN_TOKEN else t + 1
  }

  /** The cycle in numbers: the successor, except that the last 64-bit token is followed by 2; 0 and 1 are reserved. */
  lemma TokenCycle(t: nat)
    ensures IsToken(t) <==> 2 <= t <= 0xFFFF_FFFF_FFFF_FFFF
    ensures IsToken(t) ==> After(t) == if t == 0xFFFF_FFFF_FFFF_FFFF then 2 else t + 1
  {}

  /** Steps along the cycle from `from` to `to`. */
  function Distance(from: nat, to: nat): nat
    requires IsToken(from) && IsToken(to)
  {
    if to >= from then to - from else to - from + (TWO_64 - FIRST_CONN_TOKEN)
  }

  /** The first unused token at or after `from` on the cycle. */
  ghost predicate IsFirstFree(live: Live, from: nat, t: nat)
  {
    && IsToken(from) && IsToken(t) && t !in live
    && forall u :: IsToken(u) && Distance(from, u) < Distance(from, t) ==> u in live
  }

  lemma FirstFreeUnique(live: Live, from: nat, t: nat, u: nat)
    requires IsFirstFree(live, from, t) && IsFirstFree(live, from, u)
    ensures t == u
  {
  }

  function Interval(lo: nat, hi: nat): (s: set<nat>)
    requires lo <= hi
    ensures |s| == hi - lo && forall t :: t in s <==> lo <= t < hi
  {
    if lo == hi then {} else Interval(lo, hi - 1) + {hi - 1}
  }

  lemma SubsetSize(a: set<nat>, b: set<nat>)
    requires a <= b
    ensures |a| <= |b|
  {
    assert b == a + (b - a);
  }

  /** Fewer connections than tokens leave a token free. */
  lemma FreeTokenExists(live: Live)
    requires |live| < TWO_64 - FIRST_CONN_TOKEN
    ensures exists t :: IsToken(t) && t !in live
  {
    if forall t :: IsToken(t) ==> t in live {
      var all := Interval(FIRST_CONN_TOKEN, TWO_64);
      assert all <= live.Keys by { forall t | t in all ensures t in live.Keys { assert IsToken(t); } }
      SubsetSize(all, live.Keys);
    }
  }

  // ----- the transition system -----

  datatype Table = Table(live: Live, nextToken: nat)

  datatype Event =
    | Accept(now: nat)
    | RegistrationFailed
    | Activity(token: nat, now: nat)
    | Closed(token: nat)
    | Sweep(now: nat)

  predicate Invariant(s: Table, maxConnections: nat)
  {
    |s.live| <= maxConnections && IsToken(s.nextToken) && forall t :: t in s.live ==> IsToken(t)
  }

  function Idle(now: nat, last: nat): nat { if now >= last then now - last else 0 }

  /** The timeout is chosen from the number of connections before the sweep. */
  function SweepTimeout(live: Live, maxConnections: nat, config: TimeoutConfig): nat
  {
    if |live| + config.pressureHeadroom >= maxConnections then config.pressureTimeout else config.normalTimeout
  }

  function Swept(live: Live, now: nat, timeout: nat): Live
  {
    map t | t in live && Idle(now, live[t]) < timeout :: live[t]
  }

  ghost predicate Step(maxConnections: nat, config: TimeoutConfig, s: Table, e: Event, s': Table)
  {
    match e
    case Accept(now) =>
      |s.live| < maxConnections &&
      exists t :: IsFirstFree(s.live, s.nextToken, t) && s' == Table(s.live[t := now], After(t))
    case RegistrationFailed =>
      |s.live| < maxConnections && exists t :: IsFirstFree(s.live, s.nextToken, t) && s' == Table(s.live, After(t))
    case Activity(t, now) => t in s.live && s' == s.(live := s.live[t := now])
    case Closed(t) => s' == s.(live := s.live - {t})
    case Sweep(now) => s' == s.(live := Swept(s.live, now, SweepTimeout(s.live, maxConnections, config)))
  }

  /** A run: consecutive states are related by the events between them. */
  ghost predicate IsRun(maxConnections: nat, config: TimeoutConfig, states: seq<Table>, events: seq<Event>)
  {
    && |states| == |events| + 1
    && states[0] == Table(map[], FIRST_CONN_TOKEN)
    && forall i :: 0 <= i < |events| ==> Step(maxConnections, config, states[i], events[i], states[i + 1])
  }

  lemma StepKeepsInvariant(maxConnections: nat, config: TimeoutConfig, s: Table, e: Event, s': Table)
    requires Invariant(s, maxConnections) && Step(maxConnections, config, s, e, s')
    ensures Invariant(s', maxConnections)
  {
    match e {
      case Accept(now) =>
        var t :| IsFirstFree(s.live, s.nextToken, t) && s' == Table(s.live[t := now], After(t));
        assert s'.live.Keys == s.live.Keys + {t};
      case RegistrationFailed =>
      case Activity(t, now) =>
        assert s'.live.Keys == s.live.Keys;
      case Closed(t) =>
        SubsetSize(s'.live.Keys, s.live.Keys);
      case Sweep(now) =>
        SubsetSize(s'.live.Keys, s.live.Keys);
    }
  }

  /** In every reachable state: the limit holds and no reserved token is in use. */
  lemma {:induction false} ReachableStatesKeepInvariant(maxConnections: nat, config: TimeoutConfig,
                                                        states: seq<Table>, events: seq<Event>, i: nat)
    requires IsRun(maxConnections, config, states, events) && i < |states|
    ensures Invariant(states[i], maxConnections)
  {
    if i > 0 {
      ReachableStatesKeepInvariant(maxConnections, config, states, events, i - 1);
      StepKeepsInvariant(maxConnections, config, states[i - 1], events[i - 1], states[i]);
    }
  }

  /** No step but its own closing, or a sweep it was idle for, removes or replaces a connection. */
  lemma LiveConnectionSurvives(maxConnections: nat, config: TimeoutConfig, s: Table, e: Event, s': Table, t: nat)
    requires Step(maxConnections, config, s, e, s') && t in s.live
    ensures t in s'.live <==>
            e != Closed(t) && !(e.Sweep? && Idle(e.now, s.live[t]) >= SweepTimeout(s.live, maxConnections, config))
    ensures t in s'.live && !(e.Activity? && e.token == t) ==> s'.live[t] == s.live[t]
  {}

  /** Where `t` was last heard of at time `u` or later, no sweep before both timeouts are over removes it. */
  lemma SweepSpares(maxConnections: nat, config: TimeoutConfig, s: Table, e: Event, s': Table, t: nat, u: nat)
    requires Step(maxConnections, config, s, e, s') && t in s.live && s.live[t] >= u && e != Closed(t)
    requires e.Sweep? ==> 0 < config.normalTimeout && e.now < u + config.normalTimeout
    requires e.Sweep? ==> 0 < config.pressureTimeout && e.now < u + config.pressureTimeout
    requires e.Activity? && e.token == t ==> e.now >= u
    ensures t in s'.live && s'.live[t] >= u
  {}

  /**
    * Over any run: a connection accepted or read from at time `u`, and not closed since, survives every
    * sweep before u + min(normalTimeout, pressureTimeout), whatever else happens.
    */
  lemma {:induction false} ActiveConnectionSurvives(maxConnections: nat, config: TimeoutConfig, states: seq<Table>,
                                                    events: seq<Event>, i: nat, j: nat, t: nat, u: nat)
    requires IsRun(maxConnections, config, states, events) && i < j < |states|
    requires 0 < config.normalTimeout && 0 < config.pressureTimeout
    requires events[i] == Activity(t, u) || (events[i] == Accept(u) && t !in states[i].live && t in states[i + 1].live)
    requires forall k :: i < k < j ==> events[k] != Closed(t)
    requires forall k :: i < k < j && events[k].Sweep? ==>
                           events[k].now < u + config.normalTimeout && events[k].now < u + config.pressureTimeout
    requires forall k :: i < k < j && events[k].Activity? ==> events[k].now >= u
    ensures t in states[j].live && states[j].live[t] >= u
  {
    assert Step(maxConnections, config, states[j - 1], events[j - 1], states[j]);
    if j > i + 1 {
      ActiveConnectionSurvives(maxConnections, config, states, events, i, j - 1, t, u);
      SweepSpares(maxConnections, config, states[j - 1], events[j - 1], states[j], t, u);
    }
  }

  /** A sweep leaves no connection that has been idle for both timeouts. */
  lemma IdleConnectionIsSwept(maxConnections: nat, config: TimeoutConfig, s: Table, now: nat, s': Table, t: nat)
    requires Step(maxConnections, config, s, Sweep(now), s') && t in s.live
    requires s.live[t] + config.normalTimeout <= now && s.live[t] + config.pressureTimeout <= now
    ensures t !in s'.live
  {}

  // ----- the event loop -----

  datatype AcceptOutcome = Accepted(registered: bool, now: nat) | WouldBlock | AcceptError

  class EventLoop {
    var live: Live
    var nextToken: nat
    const maxConnections: nat
    const config: TimeoutConfig

    ghost predicate Valid()
      reads this
    {
      Invariant(State(), maxConnections)
    }

    function State(): Table
      reads this
    {
      Table(live, nextToken)
    }

    constructor (maxConnections: nat, config: TimeoutConfig)
      ensures Valid() && State() == Table(map[], FIRST_CONN_TOKEN)
      ensures this.maxConnections == maxConnections && this.config == config
    {
      live, nextToken := map[], FIRST_CONN_TOKEN;
      this.maxConnections, this.config := maxConnections, config;
    }

    /** Terminates whenever a token is free: each turn comes closer to it on the cycle. */
    method NextConnectionToken() returns (token: nat)
      requires Valid() && exists t :: IsToken(t) && t !in live
      modifies `nextToken
      ensures IsFirstFree(live, old(nextToken), token) && nextToken == After(token)
    {
      ghost var start := nextToken;
      ghost var free :| IsToken(free) && free !in live;
      while true
        invariant IsToken(nextToken)
        invariant forall u :: IsToken(u) && Distance(start, u) < Distance(start, free) - Distance(nextToken, free) ==>
                                u in live
        invariant Distance(nextToken, free) <= Distance(start, free)
        decreases Distance(nextToken, free)
      {
        var candidate := nextToken;
        nextToken := if nextToken + 1 == TWO_64 then 0 else nextToken + 1;
        if nextToken < FIRST_CONN_TOKEN {
          nextToken := FIRST_CONN_TOKEN;
        }
        if candidate >= FIRST_CONN_TOKEN && candidate !in live {
          return candidate;
        }
      }
    }

    /** `register_and_insert_connection`. */
    method RegisterAndInsert(registered: bool, now: nat)
      requires Valid() && |live| < maxConnections && exists t :: IsToken(t) && t !in live
      modifies this
      ensures var event := if registered then Accept(now) else RegistrationFailed;
              Step(maxConnections, config, old(State()), event, State())
      ensures Valid()
    {
      ghost var before := State();
      var token := NextConnectionToken();
      if registered {
        live := live[token := now];
      }
      ghost var event := if registered then Accept(now) else RegistrationFailed;
      StepKeepsInvariant(maxConnections, config, before, event, State());
    }

    /** `accept_connections`: until the limit is met, the backlog is empty or accepting fails. */
    method AcceptConnections(outcomes: seq<AcceptOutcome>)
      requires Valid() && maxConnections <= TWO_64 - FIRST_CONN_TOKEN
      modifies this
      ensures Valid() && State() == AcceptAll(old(State()), maxConnections, outcomes)
    {
      var i := 0;
      while i < |outcomes|
        invariant Valid() && 0 <= i <= |outcomes|
        invariant AcceptAll(old(State()), maxConnections, outcomes) == AcceptAll(State(), maxConnections, outcomes[i..])
      {
        if |live| >= maxConnections {
          return;
        }
        FreeTokenExists(live);
        match outcomes[i] {
          case Accepted(registered, now) =>
            ghost var before := State();
            RegisterAndInsert(registered, now);
            AcceptStep(before, maxConnections, config, registered, now, State());
          case WouldBlock => return;
          case AcceptError => return;
        }
        i := i + 1;
      }
    }

    /** A read on a live connection renews its last activity; on any other token it does nothing. */
    method RecordActivity(token: nat, now: nat)
      requires Valid()
      modifies `live
      ensures Valid()
      ensures token in old(live) ==> Step(maxConnections, config, old(State()), Activity(token, now), State())
      ensures token !in old(live) ==> State() == old(State())
    {
      if token in live {
        ghost var before := State();
        live := live[token := now];
        StepKeepsInvariant(maxConnections, config, before, Activity(token, now), State());
      }
    }

    /** `close_and_deregister_connection`. */
    method CloseConnection(token: nat)
      requires Valid()
      modifies `live
      ensures Valid() && Step(maxConnections, config, old(State()), Closed(token), State())
    {
      ghost var before := State();
      live := live - {token};
      StepKeepsInvariant(maxConnections, config, before, Closed(token), State());
    }

    /** `sweep_idle_connections`: collects the stale tokens, then removes them. */
    method SweepIdleConnections(now: nat)
      requires Valid()
      modifies `live
      ensures Valid() && Step(maxConnections, config, old(State()), Sweep(now), State())
      ensures forall t :: t in live ==> t in old(live) && live[t] == old(live)[t]
      ensures |old(live)| + config.pressureHeadroom >= maxConnections ==>
                forall t :: t in old(live) ==>
                              (t in live <==> 0 < config.pressureTimeout && now < old(live)[t] + config.pressureTimeout)
      ensures |old(live)| + config.pressureHeadroom < maxConnections ==>
                forall t :: t in old(live) ==>
                              (t in live <==> 0 < config.normalTimeout && now < old(live)[t] + config.normalTimeout)
    {
      ghost var before := State();
      var underPressure := |live| + config.pressureHeadroom >= maxConnections;
      var timeout := if underPressure then config.pressureTimeout else config.normalTimeout;
      var stale := set t | t in live && Idle(now, live[t]) >= timeout;
      RemoveAll(stale);
      assert live == Swept(before.live, now, timeout);
      StepKeepsInvariant(maxConnections, config, before, Sweep(now), State());
    }

    method RemoveAll(stale: set<nat>)
      modifies `live
      ensures live == old(live) - stale
    {
      var pending := stale;
      while pending != {}
        invariant pending <= stale
        invariant live == old(live) - (stale - pending)
        decreases |pending|
      {
        var token :| token in pending;
        live := live - {token};
        pending := pending - {token};
      }
    }
  }

  // ----- accepting a burst -----

  lemma {:induction false} FirstFreeExists(live: Live, from: nat, free: nat)
    requires IsToken(from) && IsToken(free) && free !in live
    ensures exists t :: IsFirstFree(live, from, t)
    decreases Distance(from, free)
  {
    if from !in live {
      assert IsFirstFree(live, from, from);
    } else {
      FirstFreeExists(live, After(from), free);
      var t :| IsFirstFree(live, After(from), t);
      forall u | IsToken(u) && Distance(from, u) < Distance(from, t) ensures u in live {
        if u != from { assert Distance(After(from), u) < Distance(After(from), t); }
      }
      assert IsFirstFree(live, from, t);
    }
  }

  ghost function FirstFree(live: Live, from: nat): (t: nat)
    requires IsToken(from) && |live| < TWO_64 - FIRST_CONN_TOKEN
    ensures IsFirstFree(live, from, t)
  {
    FreeTokenExists(live);
    var free :| IsToken(free) && free !in live;
    FirstFreeExists(live, from, free);
    var t :| IsFirstFree(live, from, t);
    t
  }

  ghost function AcceptAll(s: Table, maxConnections: nat, outcomes: seq<AcceptOutcome>): Table
    requires IsToken(s.nextToken) && maxConnections <= TWO_64 - FIRST_CONN_TOKEN
    decreases |outcomes|
  {
    if outcomes == [] || |s.live| >= maxConnections || !outcomes[0].Accepted? then s
    else
      var t := FirstFree(s.live, s.nextToken);
      AcceptAll(Table(if outcomes[0].registered then s.live[t := outcomes[0].now] else s.live, After(t)),
                maxConnections, outcomes[1..])
  }

  lemma AcceptStep(s: Table, maxConnections: nat, config: TimeoutConfig, registered: bool, now: nat, s': Table)
    requires Invariant(s, maxConnections) && |s.live| < maxConnections <= TWO_64 - FIRST_CONN_TOKEN
    requires Step(maxConnections, config, s, if registered then Accept(now) else RegistrationFailed, s')
    ensures var t := FirstFree(s.live, s.nextToken);
            s' == Table(if registered then s.live[t := now] else s.live, After(t))
  {
    var t := FirstFree(s.live, s.nextToken);
    forall u | IsFirstFree(s.live, s.nextToken, u) ensures u == t { FirstFreeUnique(s.live, s.nextToken, t, u); }
  }

  /** Connections registered before the first outcome that ends the burst. */
  function RegisteredIn(outcomes: seq<AcceptOutcome>): nat
  {
    if outcomes == [] || !outcomes[0].Accepted? then 0
    else (if outcomes[0].registered then 1 else 0) + RegisteredIn(outcomes[1..])
  }

  /** A burst fills the table up to the limit, keeps every live entry and loses no connection below it. */
  lemma {:induction false} AcceptAllFills(s: Table, maxConnections: nat, outcomes: seq<AcceptOutcome>)
    requires Invariant(s, maxConnections) && maxConnections <= TWO_64 - FIRST_CONN_TOKEN
    ensures var s' := AcceptAll(s, maxConnections, outcomes);
            Invariant(s', maxConnections) &&
            (forall t :: t in s.live ==> t in s'.live && s'.live[t] == s.live[t]) &&
            |s'.live| == if |s.live| + RegisteredIn(outcomes) <= maxConnections
                         then |s.live| + RegisteredIn(outcomes) else maxConnections
    decreases |outcomes|
  {
    if outcomes != [] && |s.live| < maxConnections && outcomes[0].Accepted? {
      var t := FirstFree(s.live, s.nextToken);
      var live := if outcomes[0].registered then s.live[t := outcomes[0].now] else s.live;
      if outcomes[0].registered { assert live.Keys == s.live.Keys + {t}; }
      AcceptAllFills(Table(live, After(t)), maxConnections, outcomes[1..]);
    }
  }
}
