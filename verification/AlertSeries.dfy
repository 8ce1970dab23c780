/** What a series of checks and clears leads to. */
module AlertSeries {
  import opened Bytes
  import opened Alerts

  /** What happens to an engine from outside: it is checked, or its log is cleared. */
  datatype Occasion = Check(state: NetState, now: nat) | ClearAll

  function EventsOf(o: Occasion, ignored: seq<bytes>): History {
    match o
    case Check(s, now) => CheckEvents(s, ignored, now)
    case ClearAll => [Cleared]
  }

  function HistoryOf(series: seq<Occasion>, ignored: seq<bytes>): History {
    if series == [] then [] else HistoryOf(series[..|series| - 1], ignored) + EventsOf(series[|series| - 1], ignored)
  }

  /** What the checks of a series found out about a slot. */
  function FoundBy(series: seq<Occasion>, ignored: seq<bytes>, slot: nat, kind: Kind): seq<bool> {
    if series == [] then [] else
    var o := series[|series| - 1];
    FoundBy(series[..|series| - 1], ignored, slot, kind) +
    if o.Check? then Found(o.state, ignored, slot, kind) else []
  }

  // ---- latency alerts and watched ones keep apart ----

  /** Latency alerts come without hysteresis, all others with it. */
  predicate Apart(h: History) {
    forall i :: 0 <= i < |h| && !h[i].Cleared? ==> (h[i].Notice? <==> h[i].alert.kind == HighLatency)
  }

  lemma ApartAppend(h: History, g: History)
    requires Apart(h) && Apart(g)
    ensures Apart(h + g)
  {
  }

  lemma ApartIsLatencyOnly(h: History)
    requires Apart(h)
    ensures LatencyOnly(h)
  {
  }

  lemma {:induction false} IfacesApart(ifaces: seq<Iface>, ignored: seq<bytes>, now: nat)
    ensures Apart(AllIfaceEvents(ifaces, ignored, now))
    decreases |ifaces|
  {
    hide Apart;
    if ifaces == [] {
      ApartNone();
    } else {
      var m := |ifaces| - 1;
      IfacesApart(ifaces[..m], ignored, now);
      IfaceApart(m, ifaces[m], ignored, now);
      ApartAppend(AllIfaceEvents(ifaces[..m], ignored, now), IfaceEvents(m, ifaces[m], ignored, now));
    }
  }

  lemma ApartNone()
    ensures Apart([])
  {
  }

  lemma IfaceApart(i: nat, iface: Iface, ignored: seq<bytes>, now: nat)
    ensures Apart(IfaceEvents(i, iface, ignored, now))
  {
  }

  lemma EventsApart(o: Occasion, ignored: seq<bytes>)
    ensures Apart(EventsOf(o, ignored))
  {
    hide AllIfaceEvents;
    if o.Check? {
      IfacesApart(o.state.ifaces, ignored, o.now);
    }
  }

  lemma {:induction false} SeriesApart(series: seq<Occasion>, ignored: seq<bytes>)
    ensures Apart(HistoryOf(series, ignored))
    decreases |series|
  {
    hide Apart, EventsOf;
    if series == [] {
      ApartNone();
    } else {
      var m := |series| - 1;
      SeriesApart(series[..m], ignored);
      EventsApart(series[m], ignored);
      ApartAppend(HistoryOf(series[..m], ignored), EventsOf(series[m], ignored));
    }
  }

  // ---- alerts with hysteresis ----

  lemma OccasionObserves(o: Occasion, ignored: seq<bytes>, slot: nat, kind: Kind)
    ensures Observed(EventsOf(o, ignored), slot, kind) == if o.Check? then Found(o.state, ignored, slot, kind) else []
  {
    hide Observed, Found;
    if o.Check? {
      CheckObserves(o.state, ignored, o.now, slot, kind);
    } else {
      OneObserved(Cleared, slot, kind);
    }
  }

  lemma {:induction false} SeriesObserves(series: seq<Occasion>, ignored: seq<bytes>, slot: nat, kind: Kind)
    ensures Observed(HistoryOf(series, ignored), slot, kind) == FoundBy(series, ignored, slot, kind)
    decreases |series|
  {
    hide Observed, EventsOf, Found;
    if series == [] {
      NoneObserved(slot, kind);
    } else {
      var m := |series| - 1;
      SeriesObserves(series[..m], ignored, slot, kind);
      OccasionObserves(series[m], ignored, slot, kind);
      ObservedAppend(HistoryOf(series[..m], ignored), EventsOf(series[m], ignored), slot, kind);
    }
  }

  /**
   * Over any series of checks and clears, the alerts pushed for an interface that is down or has errors, for the
   * gateway and for DNS are the sum, over the maximal runs of checks that found it bad, of a third of the run's length.
   */
  lemma AlertsPerSlot(series: seq<Occasion>, ignored: seq<bytes>, slot: nat, kind: Kind)
    requires kind != HighLatency
    ensures CountOf(Raised(HistoryOf(series, ignored)), slot, kind) ==
      Triples(Runs(FoundBy(series, ignored, slot, kind)))
  {
    hide Observed, HistoryOf, FoundBy, Runs, Triples, CountOf, Raised, Apart, LatencyOnly;
    SeriesObserves(series, ignored, slot, kind);
    SeriesApart(series, ignored);
    ApartIsLatencyOnly(HistoryOf(series, ignored));
    PushesAreTriples(HistoryOf(series, ignored), slot, kind);
  }

  // ---- alerts without ----

  function Notices(h: History): nat {
    if h == [] then 0 else Notices(h[..|h| - 1]) + if h[|h| - 1].Notice? then 1 else 0
  }

  lemma NoticesNext(h: History, e: Event)
    ensures Notices(h + [e]) == Notices(h) + if e.Notice? then 1 else 0
  {
    assert (h + [e])[..|h|] == h;
  }

  lemma {:induction false} NoticesAppend(h: History, g: History)
    ensures Notices(h + g) == Notices(h) + Notices(g)
    decreases |g|
  {
    hide Notices;
    if g == [] {
      NoticesNone();
      assert h + g == h;
    } else {
      var m := |g| - 1;
      NoticesAppend(h, g[..m]);
      assert h + g == (h + g[..m]) + [g[m]] && g == g[..m] + [g[m]];
      NoticesNext(h + g[..m], g[m]);
      NoticesNext(g[..m], g[m]);
    }
  }

  lemma NoticesNone()
    ensures Notices([]) == 0
  {
  }

  lemma {:induction false} LatencyIsNotices(h: History)
    requires Apart(h)
    ensures CountOf(Raised(h), 0, HighLatency) == Notices(h)
    decreases |h|
  {
    hide CountOf, Observed, Streak;
    if h == [] {
      NoPushes(0, HighLatency);
    } else {
      var front, e := h[..|h| - 1], h[|h| - 1];
      assert Apart(front) && (!e.Cleared? ==> (e.Notice? <==> e.alert.kind == HighLatency));
      LatencyIsNotices(front);
      match e
      case Watch(slot, alert, _) => CountOfMore(Raised(front), Record(slot, alert), 0, HighLatency);
      case Notice(alert) => CountOfMore(Raised(front), Record(0, alert), 0, HighLatency);
      case Cleared => CountOfDeactivated(Raised(front), 0, HighLatency);
    }
  }

  lemma {:induction false} IfacesNotice(ifaces: seq<Iface>, ignored: seq<bytes>, now: nat)
    ensures Notices(AllIfaceEvents(ifaces, ignored, now)) == 0
    decreases |ifaces|
  {
    hide Notices, IfaceEvents;
    if ifaces == [] {
      NoticesNone();
    } else {
      var m := |ifaces| - 1;
      IfacesNotice(ifaces[..m], ignored, now);
      IfaceNotices(m, ifaces[m], ignored, now);
      NoticesAppend(AllIfaceEvents(ifaces[..m], ignored, now), IfaceEvents(m, ifaces[m], ignored, now));
    }
  }

  lemma IfaceNotices(i: nat, iface: Iface, ignored: seq<bytes>, now: nat)
    ensures Notices(IfaceEvents(i, iface, ignored, now)) == 0
  {
    var es := IfaceEvents(i, iface, ignored, now);
    if es != [] { assert es == ([] + [es[0]]) + [es[1]]; NoticesNext([] + [es[0]], es[1]); NoticesNext([], es[0]); }
  }

  lemma OtherNotices(s: NetState, now: nat)
    ensures Notices(GatewayEvents(s, now)) == Notices(DnsEvents(s, now)) == 0
    ensures Notices(LatencyEvents(s, now)) == if IsSlow(s) then 1 else 0
  {
    NoticesNext([], GatewayEvents(s, now)[0]);
    NoticesNext([], DnsEvents(s, now)[0]);
    assert [] + GatewayEvents(s, now) == GatewayEvents(s, now);
  }

  lemma OccasionNotices(o: Occasion, ignored: seq<bytes>)
    ensures Notices(EventsOf(o, ignored)) == if o.Check? && IsSlow(o.state) then 1 else 0
  {
    hide AllIfaceEvents, GatewayEvents, LatencyEvents, DnsEvents, IsSlow;
    if o.Check? {
      var s, now := o.state, o.now;
      var a, g, l, d := AllIfaceEvents(s.ifaces, ignored, now), GatewayEvents(s, now), LatencyEvents(s, now),
        DnsEvents(s, now);
      IfacesNotice(s.ifaces, ignored, now);
      OtherNotices(s, now);
      NoticesAppend(a, g);
      NoticesAppend(a + g, l);
      NoticesAppend(a + g + l, d);
    }
  }

  /** What the checks of a series found out about the gateway's latency. */
  function SlowBy(series: seq<Occasion>): seq<bool> {
    if series == [] then [] else
    var o := series[|series| - 1];
    SlowBy(series[..|series| - 1]) + if o.Check? then [IsSlow(o.state)] else []
  }

  function BadOnes(obs: seq<bool>): nat {
    if obs == [] then 0 else BadOnes(obs[..|obs| - 1]) + if obs[|obs| - 1] then 1 else 0
  }

  lemma BadOnesNext(obs: seq<bool>, bad: bool)
    ensures BadOnes(obs + [bad]) == BadOnes(obs) + if bad then 1 else 0
  {
    assert (obs + [bad])[..|obs|] == obs;
  }

  lemma {:induction false} SeriesNotices(series: seq<Occasion>, ignored: seq<bytes>)
    ensures Notices(HistoryOf(series, ignored)) == BadOnes(SlowBy(series))
    decreases |series|
  {
    hide Notices, EventsOf, BadOnes, IsSlow;
    if series == [] {
      NoticesNone();
      NoBadOnes();
    } else {
      var m := |series| - 1;
      SeriesNotices(series[..m], ignored);
      OccasionNotices(series[m], ignored);
      NoticesAppend(HistoryOf(series[..m], ignored), EventsOf(series[m], ignored));
      if series[m].Check? {
        BadOnesNext(SlowBy(series[..m]), IsSlow(series[m].state));
      } else {
        assert SlowBy(series[..m]) + [] == SlowBy(series[..m]);
      }
    }
  }

  lemma NoBadOnes()
    ensures BadOnes([]) == 0
  {
  }

  /** Every check that finds the gateway reachable above 100 ms pushes one latency alert, and nothing else does. */
  lemma LatencyAlerts(series: seq<Occasion>, ignored: seq<bytes>)
    ensures CountOf(Raised(HistoryOf(series, ignored)), 0, HighLatency) == BadOnes(SlowBy(series))
  {
    hide HistoryOf, CountOf, Raised, Apart, BadOnes, SlowBy;
    SeriesApart(series, ignored);
    LatencyIsNotices(HistoryOf(series, ignored));
    SeriesNotices(series, ignored);
  }

  /** Three bad observations, the ones of the run still going on included, make at most one alert with hysteresis. */
  lemma {:induction false} TriplesAreFew(obs: seq<bool>)
    ensures HYSTERESIS * Triples(Runs(obs)) + Streak(obs) % HYSTERESIS <= BadOnes(obs)
    decreases |obs|
  {
    hide Runs, Triples, Streak, BadOnes;
    if obs == [] {
      NoPushes(0, IfaceDown);
      NoBadOnes();
      NoStreak();
    } else {
      var m := |obs| - 1;
      TriplesAreFew(obs[..m]);
      assert obs == obs[..m] + [obs[m]];
      TriplesGrow(obs[..m], obs[m]);
      BadOnesNext(obs[..m], obs[m]);
      StreakMore(obs[..m], obs[m]);
      NextInThree(Streak(obs[..m]));
    }
  }

  lemma NoStreak()
    ensures Streak([]) == 0
  {
  }

  lemma NextInThree(n: nat)
    ensures (n + 1) % HYSTERESIS == if n % HYSTERESIS == HYSTERESIS - 1 then 0 else n % HYSTERESIS + 1
  {
  }

  /**
   * The documented rule, an alert for every three checks in a row, holds for latency exactly in the series in which no
   * check finds the gateway slow.
   */
  lemma LatencyRule(series: seq<Occasion>, ignored: seq<bytes>)
    ensures CountOf(Raised(HistoryOf(series, ignored)), 0, HighLatency) == Triples(Runs(SlowBy(series))) <==>
      forall i :: 0 <= i < |series| && series[i].Check? ==> !IsSlow(series[i].state)
  {
    hide HistoryOf, CountOf, Raised, Triples, Runs, SlowBy, BadOnes, IsSlow;
    LatencyAlerts(series, ignored);
    TriplesAreFew(SlowBy(series));
    NeverSlow(series);
  }

  lemma {:induction false} NeverSlow(series: seq<Occasion>)
    ensures BadOnes(SlowBy(series)) == 0 <==> forall i :: 0 <= i < |series| && series[i].Check? ==>
      !IsSlow(series[i].state)
    decreases |series|
  {
    hide BadOnes, IsSlow;
    if series == [] {
      NoBadOnes();
    } else {
      var m := |series| - 1;
      var front := series[..m];
      NeverSlow(front);
      assert forall i :: 0 <= i < m ==> front[i] == series[i];
      if series[m].Check? {
        BadOnesNext(SlowBy(front), IsSlow(series[m].state));
      } else {
        assert SlowBy(front) + [] == SlowBy(front);
      }
    }
  }

  // ---- nothing is dismissed but by a clear ----

  predicate ClearFree(h: History) { forall i :: 0 <= i < |h| ==> !h[i].Cleared? }

  /** Whatever is found good or bad, the alerts pushed before stay as they are. */
  lemma {:induction false} NothingDismissed(h: History, g: History)
    requires ClearFree(g)
    ensures Raised(h) <= Raised(h + g)
    decreases |g|
  {
    hide Due;
    if g == [] {
      assert h + g == h;
    } else {
      var m := |g| - 1;
      NothingDismissed(h, g[..m]);
      assert (h + g)[..|h + g| - 1] == h + g[..m];
    }
  }

  /** The history up to its last clear. */
  function UpToClear(h: History): (u: History)
    ensures u <= h
  {
    if h == [] || h[|h| - 1].Cleared? then h else UpToClear(h[..|h| - 1])
  }

  /** Alerts are active when they are pushed. */
  predicate PushedActive(h: History) {
    forall i :: 0 <= i < |h| && !h[i].Cleared? ==> h[i].alert.active
  }

  predicate ActiveFrom(rs: seq<Record>, n: nat) {
    n <= |rs| && forall k :: 0 <= k < |rs| ==> (rs[k].alert.active <==> n <= k)
  }

  /** An entry is active exactly when it was pushed after the last clear. */
  lemma {:induction false} ActiveSinceClear(h: History)
    requires PushedActive(h)
    ensures ActiveFrom(Raised(h), |Raised(UpToClear(h))|)
    decreases |h|
  {
    hide Due;
    if h != [] {
      var front, e := h[..|h| - 1], h[|h| - 1];
      ActiveSinceClear(front);
    }
  }

  lemma {:induction false} IfacesPushActive(ifaces: seq<Iface>, ignored: seq<bytes>, now: nat)
    ensures PushedActive(AllIfaceEvents(ifaces, ignored, now)) && ClearFree(AllIfaceEvents(ifaces, ignored, now))
    decreases |ifaces|
  {
    if ifaces != [] { IfacesPushActive(ifaces[..|ifaces| - 1], ignored, now); }
  }

  lemma CheckPushesActive(s: NetState, ignored: seq<bytes>, now: nat)
    ensures PushedActive(CheckEvents(s, ignored, now)) && ClearFree(CheckEvents(s, ignored, now))
  {
    hide AllIfaceEvents;
    IfacesPushActive(s.ifaces, ignored, now);
  }

  lemma {:induction false} SeriesPushesActive(series: seq<Occasion>, ignored: seq<bytes>)
    ensures PushedActive(HistoryOf(series, ignored))
    decreases |series|
  {
    hide CheckEvents;
    if series != [] {
      var o := series[|series| - 1];
      SeriesPushesActive(series[..|series| - 1], ignored);
      if o.Check? { CheckPushesActive(o.state, ignored, o.now); }
    }
  }

  /** The part of a series up to its last clear. */
  function BeforeClear(series: seq<Occasion>): (b: seq<Occasion>)
    ensures b <= series
  {
    if series == [] || series[|series| - 1].ClearAll? then series else BeforeClear(series[..|series| - 1])
  }

  lemma {:induction false} ChecksDoNotClear(h: History, g: History)
    requires ClearFree(g)
    ensures UpToClear(h + g) == UpToClear(h)
    decreases |g|
  {
    if g == [] {
      assert h + g == h;
    } else {
      assert (h + g)[..|h + g| - 1] == h + g[..|g| - 1];
      ChecksDoNotClear(h, g[..|g| - 1]);
    }
  }

  lemma {:induction false} ClearOfSeries(series: seq<Occasion>, ignored: seq<bytes>)
    ensures UpToClear(HistoryOf(series, ignored)) == HistoryOf(BeforeClear(series), ignored)
    decreases |series|
  {
    hide CheckEvents;
    if series != [] {
      var o := series[|series| - 1];
      var front := HistoryOf(series[..|series| - 1], ignored);
      if o.Check? {
        CheckPushesActive(o.state, ignored, o.now);
        ChecksDoNotClear(front, EventsOf(o, ignored));
        ClearOfSeries(series[..|series| - 1], ignored);
      } else {
        assert front + [Cleared] == HistoryOf(series, ignored);
      }
    }
  }

  /** In any series the active alerts are exactly those pushed since the last clear: no check dismisses any. */
  lemma OnlyClearDismisses(series: seq<Occasion>, ignored: seq<bytes>)
    ensures ActiveFrom(Raised(HistoryOf(series, ignored)), |Raised(HistoryOf(BeforeClear(series), ignored))|)
  {
    hide HistoryOf, Raised, BeforeClear, UpToClear, PushedActive, ActiveFrom;
    SeriesPushesActive(series, ignored);
    ActiveSinceClear(HistoryOf(series, ignored));
    ClearOfSeries(series, ignored);
  }

  function Gateway(up: bool): Occasion { Check(NetState([], up, 0.0, true), 0) }

  /** `bad` checks that find the gateway unreachable, and then `good` ones that find everything in order. */
  function Outage(bad: nat, good: nat): (series: seq<Occasion>)
    decreases bad, good
  {
    if good > 0 then Outage(bad, good - 1) + [Gateway(true)]
    else if bad > 0 then Outage(bad - 1, 0) + [Gateway(false)]
    else []
  }

  /** After three bad checks and any number of good ones the gateway alert is still there, and active. */
  lemma GoodChecksDismissNothing(good: nat)
    ensures var rs := Raised(HistoryOf(Outage(3, good), []));
      CountOf(rs, 0, GatewayUnreachable) == 1 && ActiveFrom(rs, 0)
  {
    hide HistoryOf, Raised, FoundBy, Runs, Triples, CountOf, ActiveFrom, BeforeClear, Outage;
    AlertsPerSlot(Outage(3, good), [], 0, GatewayUnreachable);
    OnlyClearDismisses(Outage(3, good), []);
    OutageRuns(3, good);
    OutageUncleared(3, good);
    EmptyHistory();
  }

  lemma EmptyHistory()
    ensures Raised(HistoryOf([], [])) == []
  {
  }

  lemma FoundNext(series: seq<Occasion>, o: Occasion)
    requires o.Check?
    ensures FoundBy(series + [o], [], 0, GatewayUnreachable) ==
      FoundBy(series, [], 0, GatewayUnreachable) + [!o.state.gatewayReachable]
  {
    assert (series + [o])[..|series|] == series;
  }

  lemma {:induction false} OutageRuns(bad: nat, good: nat)
    requires bad <= 3
    ensures var found := FoundBy(Outage(bad, good), [], 0, GatewayUnreachable);
      Triples(Runs(found)) == bad / 3 && Streak(found) == if good > 0 then 0 else bad
    decreases bad, good
  {
    hide FoundBy, Runs, Triples, Streak;
    if bad == 0 && good == 0 {
      FoundNone();
      NoStreak();
      NoPushes(0, GatewayUnreachable);
    } else {
      var front := if good > 0 then Outage(bad, good - 1) else Outage(bad - 1, 0);
      if good > 0 { OutageRuns(bad, good - 1); } else { OutageRuns(bad - 1, 0); }
      FoundNext(front, Gateway(good > 0));
      TriplesGrow(FoundBy(front, [], 0, GatewayUnreachable), good == 0);
      StreakMore(FoundBy(front, [], 0, GatewayUnreachable), good == 0);
    }
  }

  lemma FoundNone()
    ensures FoundBy([], [], 0, GatewayUnreachable) == []
  {
  }

  lemma {:induction false} OutageUncleared(bad: nat, good: nat)
    ensures BeforeClear(Outage(bad, good)) == []
    decreases bad, good
  {
    if good > 0 {
      OutageUncleared(bad, good - 1);
      assert Outage(bad, good)[..|Outage(bad, good)| - 1] == Outage(bad, good - 1);
    } else if bad > 0 {
      OutageUncleared(bad - 1, 0);
      assert Outage(bad, 0)[..|Outage(bad, 0)| - 1] == Outage(bad - 1, 0);
    }
  }
}
