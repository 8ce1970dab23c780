/** Alerts as a matter of history: observations, the alerts they push, and what is reported of them. */
module Alerts {
  import opened AppConf
  import opened Bytes
  import opened Ring

  const HYSTERESIS: nat := 3
  const ERR_THRESHOLD: real := 10.0
  const PING_WARN_MS: real := 100.0
  const PING_CRIT_MS: real := 500.0

  datatype Kind = IfaceDown | HighBandwidth | PacketErrors | PacketDrops | GatewayUnreachable | DnsFailure | HighLatency

  const KINDS: nat := 7

  function KindIndex(k: Kind): (i: nat)
    ensures i < KINDS
  {
    match k
    case IfaceDown => 0
    case HighBandwidth => 1
    case PacketErrors => 2
    case PacketDrops => 3
    case GatewayUnreachable => 4
    case DnsFailure => 5
    case HighLatency => 6
  }

  datatype Severity = Info | Warning | Critical

  datatype Alert = Alert(
    kind: Kind, severity: Severity, timestamp: nat, iface: bytes, message: string, active: bool)

  /** What a check reads of the collector's state. */
  datatype Iface = Iface(name: bytes, isUp: bool, isRunning: bool, rxErrors: real, txErrors: real)

  datatype NetState = NetState(
    ifaces: seq<Iface>, gatewayReachable: bool, gatewayLatency: real, dnsReachable: bool)

  // ---- the history of an engine ----

  /**
   * What happens to the engine, one thing at a time: a watched condition is found good or bad, with the alert it may
   * lead to; a condition without hysteresis raises its alert at once; the log is cleared.
   */
  datatype Event = Watch(slot: nat, alert: Alert, bad: bool) | Notice(alert: Alert) | Cleared

  type History = seq<Event>

  /** How one watched condition was found, check by check. */
  function Observed(h: History, slot: nat, kind: Kind): seq<bool> {
    if h == [] then [] else Observed(h[..|h| - 1], slot, kind) + Seen(h[|h| - 1], slot, kind)
  }

  function Seen(e: Event, slot: nat, kind: Kind): seq<bool> {
    if e.Watch? && e.slot == slot && e.alert.kind == kind then [e.bad] else []
  }

  /** For how many observations, up to the last, the condition has been bad. */
  function Streak(obs: seq<bool>): nat {
    if obs == [] || !obs[|obs| - 1] then 0 else Streak(obs[..|obs| - 1]) + 1
  }

  /** What the counter of a slot should be. */
  function CounterOf(h: History, slot: nat, kind: Kind): nat { Streak(Observed(h, slot, kind)) % HYSTERESIS }

  /** The next observation is bad and completes another three in a row. */
  predicate Due(h: History, e: Event) {
    e.Watch? && e.bad && (Streak(Observed(h, e.slot, e.alert.kind)) + 1) % HYSTERESIS == 0
  }

  datatype Record = Record(slot: nat, alert: Alert)

  /** Every alert ever pushed, oldest first; clearing takes the active mark off all of them. */
  function Raised(h: History): seq<Record> {
    if h == [] then [] else
    var front, e := h[..|h| - 1], h[|h| - 1];
    match e
    case Watch(slot, alert, _) => if Due(front, e) then Raised(front) + [Record(slot, alert)] else Raised(front)
    case Notice(alert) => Raised(front) + [Record(0, alert)]
    case Cleared => Deactivated(Raised(front))
  }

  function Deactivated(rs: seq<Record>): (r: seq<Record>)
    ensures |r| == |rs|
  {
    seq(|rs|, i requires 0 <= i < |rs| => Record(rs[i].slot, rs[i].alert.(active := false)))
  }

  function AlertsOf(rs: seq<Record>): (r: seq<Alert>)
    ensures |r| == |rs|
  {
    seq(|rs|, i requires 0 <= i < |rs| => rs[i].alert)
  }

  function Inactive(log: seq<Alert>): (r: seq<Alert>)
    ensures |r| == |log|
  {
    seq(|log|, i requires 0 <= i < |log| => log[i].(active := false))
  }

  function ActiveIn(log: seq<Alert>): nat {
    if log == [] then 0 else ActiveIn(log[..|log| - 1]) + if log[|log| - 1].active then 1 else 0
  }

  // ---- runs of bad observations ----

  /** The lengths of the maximal runs of bad observations. */
  function Runs(obs: seq<bool>): (r: seq<nat>)
    ensures Streak(obs) > 0 ==> r != [] && r[|r| - 1] == Streak(obs)
  {
    if obs == [] then [] else
    var before := obs[..|obs| - 1];
    Lengthened(Runs(before), Streak(before), obs[|obs| - 1])
  }

  /** The run lengths after one more observation; `streak` is the length of the run still going on. */
  function Lengthened(runs: seq<nat>, streak: nat, bad: bool): (r: seq<nat>)
    requires streak > 0 ==> runs != []
    ensures bad ==> r != [] && (streak > 0 ==> r[|r| - 1] == runs[|runs| - 1] + 1) && (streak == 0 ==> r[|r| - 1] == 1)
  {
    if !bad then runs
    else if streak == 0 then runs + [1]
    else runs[..|runs| - 1] + [runs[|runs| - 1] + 1]
  }

  /** Three in a row make an alert, six in a row two, and so on. */
  function Triples(runs: seq<nat>): nat {
    if runs == [] then 0 else Triples(runs[..|runs| - 1]) + runs[|runs| - 1] / HYSTERESIS
  }

  function CountOf(rs: seq<Record>, slot: nat, kind: Kind): nat {
    if rs == [] then 0 else
    var r := rs[|rs| - 1];
    CountOf(rs[..|rs| - 1], slot, kind) + if r.slot == slot && r.alert.kind == kind then 1 else 0
  }

  lemma TriplesLast(r: seq<nat>, x: nat)
    ensures Triples(r + [x]) == Triples(r) + x / HYSTERESIS
  {
    assert (r + [x])[..|r|] == r;
  }

  /** One more bad observation completes a triple exactly when the streak becomes a multiple of three. */
  lemma TriplesGrow(obs: seq<bool>, bad: bool)
    ensures Triples(Runs(obs + [bad])) ==
      Triples(Runs(obs)) + if bad && (Streak(obs) + 1) % HYSTERESIS == 0 then 1 else 0
  {
    hide Runs, Triples, Streak;
    RunsMore(obs, bad);
    ThirdStep(Streak(obs));
    var r := Runs(obs);
    if bad && Streak(obs) == 0 {
      TriplesLast(r, 1);
    } else if bad {
      var m := |r| - 1;
      assert r == r[..m] + [r[m]];
      TriplesLast(r[..m], r[m]);
      TriplesLast(r[..m], r[m] + 1);
    }
  }

  lemma RunsMore(obs: seq<bool>, bad: bool)
    ensures Runs(obs + [bad]) == Lengthened(Runs(obs), Streak(obs), bad)
  {
    hide Streak, Lengthened;
    var more := obs + [bad];
    assert more[..|more| - 1] == obs && more[|more| - 1] == bad;
  }

  lemma ThirdStep(n: nat)
    ensures (n + 1) / HYSTERESIS == n / HYSTERESIS + if (n + 1) % HYSTERESIS == 0 then 1 else 0
  {
  }

  lemma {:induction false} CountOfDeactivated(rs: seq<Record>, slot: nat, kind: Kind)
    ensures CountOf(Deactivated(rs), slot, kind) == CountOf(rs, slot, kind)
  {
    if rs != [] {
      var m := |rs| - 1;
      CountOfDeactivated(rs[..m], slot, kind);
      assert Deactivated(rs)[..m] == Deactivated(rs[..m]);
    }
  }

  lemma CountOfMore(rs: seq<Record>, r: Record, slot: nat, kind: Kind)
    ensures CountOf(rs + [r], slot, kind) ==
      CountOf(rs, slot, kind) + if r.slot == slot && r.alert.kind == kind then 1 else 0
  {
    assert (rs + [r])[..|rs|] == rs;
  }

  /** Only latency alerts come without hysteresis. */
  predicate LatencyOnly(h: History) {
    forall i :: 0 <= i < |h| && h[i].Notice? ==> h[i].alert.kind == HighLatency
  }

  /**
   * Over any history, the alerts a slot has pushed are a third, rounded down, of each maximal run of bad observations
   * of it.
   */
  lemma {:induction false} PushesAreTriples(h: History, slot: nat, kind: Kind)
    requires LatencyOnly(h) && kind != HighLatency
    ensures CountOf(Raised(h), slot, kind) == Triples(Runs(Observed(h, slot, kind)))
    decreases |h|
  {
    hide Runs, Triples, CountOf, Streak;
    if h == [] {
      NoPushes(slot, kind);
    } else {
      var front, e := h[..|h| - 1], h[|h| - 1];
      PushesAreTriples(front, slot, kind);
      assert h == front + [e];
      ObservedMore(front, e, slot, kind);
      TriplesAfter(front, e, slot, kind);
    }
  }

  lemma RaisedMore(h: History, e: Event)
    ensures e.Watch? ==>
      Raised(h + [e]) == if Due(h, e) then Raised(h) + [Record(e.slot, e.alert)] else Raised(h)
    ensures e.Notice? ==> Raised(h + [e]) == Raised(h) + [Record(0, e.alert)]
    ensures e.Cleared? ==> Raised(h + [e]) == Deactivated(Raised(h))
  {
    hide Due, Deactivated;
    assert (h + [e])[..|h|] == h;
  }

  lemma TriplesAfter(h: History, e: Event, slot: nat, kind: Kind)
    requires kind != HighLatency && (e.Notice? ==> e.alert.kind == HighLatency)
    requires CountOf(Raised(h), slot, kind) == Triples(Runs(Observed(h, slot, kind)))
    ensures CountOf(Raised(h + [e]), slot, kind) == Triples(Runs(Observed(h + [e], slot, kind)))
  {
    hide Runs, Triples, CountOf, Streak, Observed, Raised, Deactivated;
    RaisedMore(h, e);
    ObservedMore(h, e, slot, kind);
    match e
    case Watch(s, alert, bad) =>
      TriplesGrow(Observed(h, slot, kind), bad);
      CountOfMore(Raised(h), Record(s, alert), slot, kind);
    case Notice(alert) => CountOfMore(Raised(h), Record(0, alert), slot, kind);
    case Cleared => CountOfDeactivated(Raised(h), slot, kind);
  }

  lemma NoPushes(slot: nat, kind: Kind)
    ensures CountOf([], slot, kind) == Triples(Runs([])) == 0
  {
  }

  // ---- one check ----

  function DownAlert(iface: Iface, now: nat): Alert {
    Alert(IfaceDown, Critical, now, iface.name, "Interface is down", true)
  }

  function ErrorAlert(iface: Iface, now: nat): Alert {
    Alert(PacketErrors, Warning, now, iface.name, "High packet error rate", true)
  }

  function GatewayAlert(now: nat): Alert {
    Alert(GatewayUnreachable, Critical, now, [], "Gateway unreachable", true)
  }

  function DnsAlert(now: nat): Alert { Alert(DnsFailure, Warning, now, [], "DNS resolution failed", true) }

  predicate IsDown(iface: Iface) { !iface.isUp || !iface.isRunning }

  predicate HasErrors(iface: Iface) { iface.rxErrors + iface.txErrors > ERR_THRESHOLD }

  function IfaceEvents(i: nat, iface: Iface, ignored: seq<bytes>, now: nat): History {
    if iface.name in ignored then []
    else [Watch(i, DownAlert(iface, now), IsDown(iface)), Watch(i, ErrorAlert(iface, now), HasErrors(iface))]
  }

  function AllIfaceEvents(ifaces: seq<Iface>, ignored: seq<bytes>, now: nat): History {
    if ifaces == [] then [] else
    var m := |ifaces| - 1;
    AllIfaceEvents(ifaces[..m], ignored, now) + IfaceEvents(m, ifaces[m], ignored, now)
  }

  function LatencyEvents(s: NetState, now: nat): History {
    if s.gatewayReachable && s.gatewayLatency > PING_CRIT_MS then
      [Notice(Alert(HighLatency, Critical, now, [], "Very high gateway latency", true))]
    else if s.gatewayReachable && s.gatewayLatency > PING_WARN_MS then
      [Notice(Alert(HighLatency, Warning, now, [], "High gateway latency", true))]
    else []
  }

  function GatewayEvents(s: NetState, now: nat): History { [Watch(0, GatewayAlert(now), !s.gatewayReachable)] }

  function DnsEvents(s: NetState, now: nat): History { [Watch(0, DnsAlert(now), !s.dnsReachable)] }

  /** What `alerts_check` goes through, in its order. */
  function CheckEvents(s: NetState, ignored: seq<bytes>, now: nat): History {
    AllIfaceEvents(s.ifaces, ignored, now) + GatewayEvents(s, now) + LatencyEvents(s, now) + DnsEvents(s, now)
  }

  // ---- what single events do ----

  lemma EventsAppend(h: History, s: NetState, ignored: seq<bytes>, now: nat)
    ensures h + AllIfaceEvents(s.ifaces, ignored, now) + GatewayEvents(s, now) + LatencyEvents(s, now) +
      DnsEvents(s, now)
      == h + CheckEvents(s, ignored, now)
  {
    hide AllIfaceEvents, GatewayEvents, LatencyEvents, DnsEvents;
  }

  lemma NothingYet()
    ensures Raised([]) == [] && forall i, k: Kind :: CounterOf([], i, k) == 0
  {
  }

  lemma KindsDiffer()
    ensures forall j: Kind, k: Kind :: KindIndex(j) == KindIndex(k) ==> j == k
  {
  }

  lemma WatchRaises(h: History, e: Event)
    requires e.Watch?
    ensures var more, now := Raised(h + [e]), Raised(h);
      AlertsOf(more) == (if Due(h, e) then AlertsOf(now) + [e.alert] else AlertsOf(now)) &&
      |more| == |now| + if Due(h, e) then 1 else 0
  {
    hide Due;
    assert (h + [e])[..|h|] == h;
  }

  lemma NoticeRaises(h: History, a: Alert)
    ensures var more, now := Raised(h + [Notice(a)]), Raised(h);
      AlertsOf(more) == AlertsOf(now) + [a] && |more| == |now| + 1
  {
    assert (h + [Notice(a)])[..|h|] == h;
  }

  lemma ClearRaises(h: History)
    ensures AlertsOf(Raised(h + [Cleared])) == Inactive(AlertsOf(Raised(h)))
    ensures |Raised(h + [Cleared])| == |Raised(h)|
  {
    assert (h + [Cleared])[..|h|] == h;
  }

  lemma ObservedNext(h: History, e: Event, slot: nat, kind: Kind)
    ensures Observed(h + [e], slot, kind) == Observed(h, slot, kind) + Seen(e, slot, kind)
  {
    assert (h + [e])[..|h|] == h;
  }

  lemma ObservedMore(h: History, e: Event, slot: nat, kind: Kind)
    ensures Observed(h + [e], slot, kind) ==
      if e.Watch? && e.slot == slot && e.alert.kind == kind then Observed(h, slot, kind) + [e.bad]
      else Observed(h, slot, kind)
  {
    hide Observed;
    ObservedNext(h, e, slot, kind);
    assert Observed(h, slot, kind) + [] == Observed(h, slot, kind);
  }

  lemma StreakMore(obs: seq<bool>, bad: bool)
    ensures Streak(obs + [bad]) == if bad then Streak(obs) + 1 else 0
  {
    assert (obs + [bad])[..|obs|] == obs;
  }

  /** How a counter goes on after one more observation. */
  function NextCount(c: nat, bad: bool): nat {
    if !bad || c + 1 >= HYSTERESIS then 0 else c + 1
  }

  function CounterAfter(h: History, e: Event, slot: nat, kind: Kind): nat
    requires e.Watch?
  {
    if slot == e.slot && kind == e.alert.kind then NextCount(CounterOf(h, slot, kind), e.bad)
    else CounterOf(h, slot, kind)
  }

  lemma CountersStep(h: History, e: Event)
    requires e.Watch?
    ensures Due(h, e) <==> e.bad && CounterOf(h, e.slot, e.alert.kind) + 1 >= HYSTERESIS
    ensures forall i, k: Kind :: CounterOf(h + [e], i, k) == CounterAfter(h, e, i, k)
  {
    hide Observed, Streak;
    forall i: nat, k: Kind
      ensures CounterOf(h + [e], i, k) == CounterAfter(h, e, i, k)
    {
      ObservedMore(h, e, i, k);
      StreakMore(Observed(h, i, k), e.bad);
    }
  }

  /** Events other than observations leave every counter alone. */
  lemma OthersObserve(h: History, e: Event)
    requires !e.Watch?
    ensures forall i, k: Kind :: CounterOf(h + [e], i, k) == CounterOf(h, i, k)
  {
    forall i: nat, k: Kind ensures CounterOf(h + [e], i, k) == CounterOf(h, i, k) {
      ObservedMore(h, e, i, k);
    }
  }

  lemma {:induction false} ActiveAppend(a: seq<Alert>, b: seq<Alert>)
    ensures ActiveIn(a + b) == ActiveIn(a) + ActiveIn(b)
    decreases |b|
  {
    if b == [] {
      assert a + b == a;
    } else {
      assert (a + b)[..|a + b| - 1] == a + b[..|b| - 1];
      ActiveAppend(a, b[..|b| - 1]);
    }
  }

  /** The log is counted in array order, which is a rotation of its order in time. */
  lemma ActiveAnyOrder(a: seq<Alert>, head: nat, count: nat)
    requires head < |a| && count <= |a| && (count < |a| ==> head == count)
    ensures ActiveIn(a[..count]) == ActiveIn(Entries(a, head, count))
  {
    if count == |a| {
      ActiveAppend(a[head..], a[..head]);
      ActiveAppend(a[..head], a[head..]);
      assert a[..head] + a[head..] == a[..count];
      assert Entries(a, head, count) == a[head..] + a[..head];
    } else {
      assert Entries(a, head, count) == a[..count];
    }
  }

  lemma EntriesInactive(a: seq<Alert>, head: nat, count: nat)
    requires head < |a| && count <= |a|
    ensures Entries(Inactive(a), head, count) == Inactive(Entries(a, head, count))
  {
  }

  lemma RecentInactive(s: seq<Alert>, n: nat)
    ensures Recent(Inactive(s), n) == Inactive(Recent(s, n))
  {
  }

  // ---- what one check finds ----

  lemma {:induction false} ObservedAppend(h: History, g: History, slot: nat, kind: Kind)
    ensures Observed(h + g, slot, kind) == Observed(h, slot, kind) + Observed(g, slot, kind)
    decreases |g|
  {
    hide Observed, Seen;
    if g == [] {
      NoneObserved(slot, kind);
      assert h + g == h;
      assert Observed(h, slot, kind) + [] == Observed(h, slot, kind);
    } else {
      var m := |g| - 1;
      ObservedAppend(h, g[..m], slot, kind);
      ObservedNext(h + g[..m], g[m], slot, kind);
      ObservedNext(g[..m], g[m], slot, kind);
      assert h + g == (h + g[..m]) + [g[m]];
      assert g == g[..m] + [g[m]];
      Regroup(Observed(h, slot, kind), Observed(g[..m], slot, kind), Seen(g[m], slot, kind));
    }
  }

  lemma Regroup(a: seq<bool>, b: seq<bool>, c: seq<bool>)
    ensures (a + b) + c == a + (b + c)
  {
  }

  /** What a check finds out about one interface. */
  function Finding(i: nat, ifaces: seq<Iface>, ignored: seq<bytes>, kind: Kind): seq<bool> {
    if i >= |ifaces| || ifaces[i].name in ignored then []
    else if kind == IfaceDown then [IsDown(ifaces[i])]
    else if kind == PacketErrors then [HasErrors(ifaces[i])]
    else []
  }

  lemma OneIface(i: nat, iface: Iface, ignored: seq<bytes>, now: nat, slot: nat, kind: Kind)
    ensures Observed(IfaceEvents(i, iface, ignored, now), slot, kind) ==
      if slot != i || iface.name in ignored then []
      else if kind == IfaceDown then [IsDown(iface)]
      else if kind == PacketErrors then [HasErrors(iface)]
      else []
  {
    hide Observed;
    NoneObserved(slot, kind);
    if iface.name !in ignored {
      var down, errors := Watch(i, DownAlert(iface, now), IsDown(iface)),
        Watch(i, ErrorAlert(iface, now), HasErrors(iface));
      assert [down, errors] == [down] + [errors] && [] + [down] == [down];
      ObservedMore([], down, slot, kind);
      ObservedMore([down], errors, slot, kind);
    }
  }

  lemma NoneObserved(slot: nat, kind: Kind)
    ensures Observed([], slot, kind) == []
  {
  }

  lemma OneObserved(e: Event, slot: nat, kind: Kind)
    ensures Observed([e], slot, kind) == if e.Watch? && e.slot == slot && e.alert.kind == kind then [e.bad] else []
  {
    NoneObserved(slot, kind);
    ObservedMore([], e, slot, kind);
    assert [] + [e] == [e];
  }

  lemma {:induction false} AllIfaces(ifaces: seq<Iface>, ignored: seq<bytes>, now: nat, slot: nat, kind: Kind)
    ensures Observed(AllIfaceEvents(ifaces, ignored, now), slot, kind) == Finding(slot, ifaces, ignored, kind)
    decreases |ifaces|
  {
    hide Observed, IfaceEvents;
    NoneObserved(slot, kind);
    if ifaces != [] {
      var m := |ifaces| - 1;
      AllIfaces(ifaces[..m], ignored, now, slot, kind);
      OneIface(m, ifaces[m], ignored, now, slot, kind);
      ObservedAppend(AllIfaceEvents(ifaces[..m], ignored, now), IfaceEvents(m, ifaces[m], ignored, now), slot, kind);
    }
  }

  /** What one check finds out about a slot. */
  function Found(s: NetState, ignored: seq<bytes>, slot: nat, kind: Kind): seq<bool> {
    if kind == GatewayUnreachable then if slot == 0 then [!s.gatewayReachable] else []
    else if kind == DnsFailure then if slot == 0 then [!s.dnsReachable] else []
    else Finding(slot, s.ifaces, ignored, kind)
  }

  lemma CheckObserves(s: NetState, ignored: seq<bytes>, now: nat, slot: nat, kind: Kind)
    ensures Observed(CheckEvents(s, ignored, now), slot, kind) == Found(s, ignored, slot, kind)
  {
    hide Observed, AllIfaceEvents, GatewayEvents, LatencyEvents, DnsEvents;
    AllIfaces(s.ifaces, ignored, now, slot, kind);
    OthersOfCheck(s, now, slot, kind);
    var a, g, l, d := AllIfaceEvents(s.ifaces, ignored, now), GatewayEvents(s, now), LatencyEvents(s, now),
      DnsEvents(s, now);
    ObservedAppend(a, g, slot, kind);
    ObservedAppend(a + g, l, slot, kind);
    ObservedAppend(a + g + l, d, slot, kind);
  }

  lemma OthersOfCheck(s: NetState, now: nat, slot: nat, kind: Kind)
    ensures Observed(GatewayEvents(s, now), slot, kind) ==
      if slot == 0 && kind == GatewayUnreachable then [!s.gatewayReachable] else []
    ensures Observed(LatencyEvents(s, now), slot, kind) == []
    ensures Observed(DnsEvents(s, now), slot, kind) == if slot == 0 && kind == DnsFailure then [!s.dnsReachable] else []
  {
    hide Observed;
    NoneObserved(slot, kind);
    if LatencyEvents(s, now) != [] { OneObserved(LatencyEvents(s, now)[0], slot, kind); }
    OneObserved(GatewayEvents(s, now)[0], slot, kind);
    OneObserved(DnsEvents(s, now)[0], slot, kind);
  }

  // ---- when a check pushes ----

  /** At least one alert is pushed while `g` happens after `h`. */
  predicate Grows(h: History, g: History) { |Raised(h + g)| > |Raised(h)| }

  lemma RaisedByOne(h: History, e: Event)
    ensures |Raised(h + [e])| == |Raised(h)| + if e.Notice? || Due(h, e) then 1 else 0
  {
    hide Observed, Streak;
    assert (h + [e])[..|h|] == h;
  }

  /** The log never forgets that an alert was pushed. */
  lemma {:induction false} NeverFewer(h: History, g: History)
    ensures |Raised(h + g)| >= |Raised(h)|
    decreases |g|
  {
    hide Raised, Due;
    if g == [] {
      assert h + g == h;
    } else {
      var m := |g| - 1;
      NeverFewer(h, g[..m]);
      assert h + g == (h + g[..m]) + [g[m]];
      RaisedByOne(h + g[..m], g[m]);
    }
  }

  lemma GrowsInParts(h: History, a: History, b: History)
    ensures Grows(h, a + b) <==> Grows(h, a) || Grows(h + a, b)
  {
    hide Raised;
    assert h + (a + b) == (h + a) + b;
    NeverFewer(h, a);
    NeverFewer(h + a, b);
  }

  lemma CounterUntouched(h: History, g: History, slot: nat, kind: Kind)
    requires Observed(g, slot, kind) == []
    ensures CounterOf(h + g, slot, kind) == CounterOf(h, slot, kind)
  {
    hide Observed, Streak;
    ObservedAppend(h, g, slot, kind);
    assert Observed(h, slot, kind) + [] == Observed(h, slot, kind);
  }

  /** A condition found bad with its counter one short of three. */
  predicate SlotDue(h: History, slot: nat, kind: Kind, bad: bool) {
    bad && CounterOf(h, slot, kind) == HYSTERESIS - 1
  }

  lemma WatchGrows(h: History, slot: nat, alert: Alert, bad: bool)
    ensures Grows(h, [Watch(slot, alert, bad)]) <==> SlotDue(h, slot, alert.kind, bad)
  {
    hide Raised, Due;
    var e := Watch(slot, alert, bad);
    RaisedByOne(h, e);
    CountersStep(h, e);
  }

  predicate IfaceDue(h: History, i: nat, iface: Iface, ignored: seq<bytes>) {
    && iface.name !in ignored
    && (SlotDue(h, i, IfaceDown, IsDown(iface)) || SlotDue(h, i, PacketErrors, HasErrors(iface)))
  }

  lemma IfaceGrows(h: History, i: nat, iface: Iface, ignored: seq<bytes>, now: nat)
    ensures Grows(h, IfaceEvents(i, iface, ignored, now)) <==> IfaceDue(h, i, iface, ignored)
  {
    hide Raised, CounterOf, Observed, IsDown, HasErrors, Grows;
    if iface.name in ignored {
      NothingGrows(h);
    } else {
      var down, errors := DownAlert(iface, now), ErrorAlert(iface, now);
      var first := Watch(i, down, IsDown(iface));
      WatchGrows(h, i, down, IsDown(iface));
      OneObserved(first, i, PacketErrors);
      CounterUntouched(h, [first], i, PacketErrors);
      WatchGrows(h + [first], i, errors, HasErrors(iface));
      GrowsInParts(h, [first], [Watch(i, errors, HasErrors(iface))]);
      assert IfaceEvents(i, iface, ignored, now) == [first] + [Watch(i, errors, HasErrors(iface))];
    }
  }

  lemma NothingGrows(h: History)
    ensures !Grows(h, [])
  {
    hide Raised;
    assert h + [] == h;
  }

  predicate SomeIfaceDue(h: History, ifaces: seq<Iface>, ignored: seq<bytes>) {
    exists i: nat :: i < |ifaces| && IfaceDue(h, i, ifaces[i], ignored)
  }

  lemma SomeIfaceLast(h: History, ifaces: seq<Iface>, ignored: seq<bytes>)
    requires ifaces != []
    ensures var m := |ifaces| - 1;
      SomeIfaceDue(h, ifaces, ignored) <==> SomeIfaceDue(h, ifaces[..m], ignored) || IfaceDue(h, m, ifaces[m], ignored)
  {
    hide IfaceDue;
    var m := |ifaces| - 1;
    if SomeIfaceDue(h, ifaces[..m], ignored) {
      var i: nat :| i < m && IfaceDue(h, i, ifaces[..m][i], ignored);
      assert ifaces[i] == ifaces[..m][i];
    }
    if SomeIfaceDue(h, ifaces, ignored) {
      var i: nat :| i < |ifaces| && IfaceDue(h, i, ifaces[i], ignored);
      assert i < m ==> ifaces[..m][i] == ifaces[i];
    }
  }

  lemma {:induction false} IfacesGrow(h: History, ifaces: seq<Iface>, ignored: seq<bytes>, now: nat)
    ensures Grows(h, AllIfaceEvents(ifaces, ignored, now)) <==> SomeIfaceDue(h, ifaces, ignored)
    decreases |ifaces|
  {
    hide Grows, IfaceEvents, CounterOf, Observed, IsDown, HasErrors;
    if ifaces == [] {
      NothingGrows(h);
    } else {
      var m := |ifaces| - 1;
      var front := AllIfaceEvents(ifaces[..m], ignored, now);
      IfacesGrow(h, ifaces[..m], ignored, now);
      SomeIfaceLast(h, ifaces, ignored);
      AllIfaces(ifaces[..m], ignored, now, m, IfaceDown);
      AllIfaces(ifaces[..m], ignored, now, m, PacketErrors);
      CounterUntouched(h, front, m, IfaceDown);
      CounterUntouched(h, front, m, PacketErrors);
      IfaceGrows(h + front, m, ifaces[m], ignored, now);
      GrowsInParts(h, front, IfaceEvents(m, ifaces[m], ignored, now));
    }
  }

  predicate IsSlow(s: NetState) { s.gatewayReachable && s.gatewayLatency > PING_WARN_MS }

  /** What can be told before a check: it will push an alert. */
  predicate PushDue(h: History, s: NetState, ignored: seq<bytes>) {
    || SomeIfaceDue(h, s.ifaces, ignored)
    || SlotDue(h, 0, GatewayUnreachable, !s.gatewayReachable)
    || IsSlow(s)
    || SlotDue(h, 0, DnsFailure, !s.dnsReachable)
  }

  lemma LatencyGrows(h: History, s: NetState, now: nat)
    ensures Grows(h, LatencyEvents(s, now)) <==> IsSlow(s)
  {
    hide Raised;
    if IsSlow(s) {
      RaisedByOne(h, LatencyEvents(s, now)[0]);
    } else {
      NothingGrows(h);
    }
  }

  /** A check pushes an alert exactly when one was due before it. */
  lemma CheckGrows(h: History, s: NetState, ignored: seq<bytes>, now: nat)
    ensures Grows(h, CheckEvents(s, ignored, now)) <==> PushDue(h, s, ignored)
  {
    hide Grows, CounterOf, Observed, AllIfaceEvents, SomeIfaceDue, IsSlow, LatencyEvents;
    var a, g, l, d := AllIfaceEvents(s.ifaces, ignored, now), GatewayEvents(s, now), LatencyEvents(s, now),
      DnsEvents(s, now);
    GrowsInParts(h, a + g + l, d);
    GrowsInParts(h, a + g, l);
    GrowsInParts(h, a, g);
    IfacesGrow(h, s.ifaces, ignored, now);
    AllIfaces(s.ifaces, ignored, now, 0, GatewayUnreachable);
    CounterUntouched(h, a, 0, GatewayUnreachable);
    WatchGrows(h + a, 0, GatewayAlert(now), !s.gatewayReachable);
    LatencyGrows(h + (a + g), s, now);
    DnsLast(s, ignored, now);
    CounterUntouched(h, a + g + l, 0, DnsFailure);
    WatchGrows(h + (a + g + l), 0, DnsAlert(now), !s.dnsReachable);
  }

  lemma DnsLast(s: NetState, ignored: seq<bytes>, now: nat)
    ensures var before := AllIfaceEvents(s.ifaces, ignored, now) + GatewayEvents(s, now) + LatencyEvents(s, now);
      Observed(before, 0, DnsFailure) == []
  {
    hide Observed, AllIfaceEvents, GatewayEvents, LatencyEvents;
    var a, g, l := AllIfaceEvents(s.ifaces, ignored, now), GatewayEvents(s, now), LatencyEvents(s, now);
    AllIfaces(s.ifaces, ignored, now, 0, DnsFailure);
    OthersOfCheck(s, now, 0, DnsFailure);
    ObservedAppend(a, g, 0, DnsFailure);
    ObservedAppend(a + g, l, 0, DnsFailure);
  }

  /** What `alerts_active_count` reports after a check, given the history before it. */
  function Reported(h: History, s: NetState, ignored: seq<bytes>, now: nat): nat {
    NeverFewer(h, CheckEvents(s, ignored, now));
    |Raised(h + CheckEvents(s, ignored, now))| - |Raised(h)| + ActiveInLog(h + CheckEvents(s, ignored, now))
  }

  /** How many entries of the log are active. */
  function ActiveInLog(h: History): nat { ActiveIn(Recent(AlertsOf(Raised(h)), MAX_ALERTS)) }

  /** The report is the number of active entries exactly when no push was due. */
  lemma ReportIsRight(h: History, s: NetState, ignored: seq<bytes>, now: nat)
    ensures Reported(h, s, ignored, now) == ActiveInLog(h + CheckEvents(s, ignored, now)) <==> !PushDue(h, s, ignored)
  {
    hide Raised, ActiveInLog, CheckEvents, PushDue;
    NeverFewer(h, CheckEvents(s, ignored, now));
    CheckGrows(h, s, ignored, now);
  }

  /**
   * A single check of a slow gateway raises an alert at once, and the one active entry it leaves in the log is
   * reported as two.
   */
  lemma OneSlowPing(now: nat)
    ensures var s := NetState([], true, 200.0, true);
      ActiveInLog(CheckEvents(s, [], now)) == 1 && Reported([], s, [], now) == 2
  {
    hide Raised, ActiveIn, Recent, AlertsOf, CheckEvents, Due;
    var s := NetState([], true, 200.0, true);
    var g, l, d := SlowEvents(now);
    RaisedNothing();
    NotBad([], g);
    NotBad(([] + [g]) + [l], d);
    WatchRaises([], g);
    NoticeRaises([] + [g], l.alert);
    WatchRaises(([] + [g]) + [l], d);
    OneActive(l.alert);
    assert [] + [l.alert] == [l.alert];
    assert [] + CheckEvents(s, [], now) == CheckEvents(s, [], now);
  }

  lemma SlowEvents(now: nat) returns (g: Event, l: Event, d: Event)
    ensures CheckEvents(NetState([], true, 200.0, true), [], now) == (([] + [g]) + [l]) + [d]
    ensures g.Watch? && !g.bad && l.Notice? && l.alert.active && d.Watch? && !d.bad
  {
    var s := NetState([], true, 200.0, true);
    g, l, d := GatewayEvents(s, now)[0], LatencyEvents(s, now)[0], DnsEvents(s, now)[0];
  }

  lemma NotBad(h: History, e: Event)
    requires e.Watch? && !e.bad
    ensures !Due(h, e)
  {
  }

  lemma RaisedNothing()
    ensures Raised([]) == [] && AlertsOf(Raised([])) == []
  {
  }

  lemma OneActive(a: Alert)
    requires a.active
    ensures ActiveIn(Recent([a], MAX_ALERTS)) == 1
  {
    assert [a][..0] == [];
  }
}
