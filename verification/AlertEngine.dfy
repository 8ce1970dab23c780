/** The alert engine in place: counters, a ring log and the active count. */
module AlertEngine {
  import opened AppConf
  import opened Bytes
  import opened Ring
  import opened Alerts

  class Engine {
    const log: array<Alert>
    var head: nat
    var count: nat
    var activeCount: nat
    const hyst: array2<nat>
    const ignored: seq<bytes>
    /** Everything that has happened since the engine was initialised. */
    ghost var history: History

    ghost predicate Shape()
      reads `head, `count
    {
      && log.Length == MAX_ALERTS
      && hyst.Length0 == MAX_INTERFACES
      && hyst.Length1 == KINDS
      && head < MAX_ALERTS
      && count <= MAX_ALERTS
      && (count < MAX_ALERTS ==> head == count)
    }

    /** The log holds the latest alerts ever pushed, up to 64 of them. */
    ghost predicate LogsLatest()
      requires Shape()
      reads `head, `count, `history, log
    {
      && count == Min(|Raised(history)|, MAX_ALERTS)
      && Entries(log[..], head, count) == Recent(AlertsOf(Raised(history)), MAX_ALERTS)
    }

    /** Every counter is its slot's streak of bad observations, modulo three. */
    ghost predicate CountsStreaks()
      requires Shape()
      reads `head, `count, `history, hyst
    {
      forall i, k: Kind :: 0 <= i < MAX_INTERFACES ==>
        hyst[i, KindIndex(k)] == CounterOf(history, i, k)
    }

    ghost predicate Valid()
      reads `head, `count, `history, log, hyst
    {
      Shape() && LogsLatest() && CountsStreaks()
    }

    /** The counter of a slot stands one short of three, and the condition is bad. */
    ghost predicate Ripe(slot: nat, kind: Kind, bad: bool)
      requires Shape() && slot < MAX_INTERFACES
      reads `head, `count, hyst
    {
      bad && hyst[slot, KindIndex(kind)] == HYSTERESIS - 1
    }

    ghost predicate RipeIface(i: nat, iface: Iface)
      requires Shape() && i < MAX_INTERFACES
      reads `head, `count, hyst
    {
      iface.name !in ignored && (Ripe(i, IfaceDown, IsDown(iface)) || Ripe(i, PacketErrors, HasErrors(iface)))
    }

    /** Told from the counters and the state to be checked: the next check will push an alert. */
    ghost predicate WillPush(s: NetState)
      requires Shape() && |s.ifaces| <= MAX_INTERFACES
      reads `head, `count, hyst
    {
      || (exists i: nat :: i < |s.ifaces| && RipeIface(i, s.ifaces[i]))
      || Ripe(0, GatewayUnreachable, !s.gatewayReachable)
      || (s.gatewayReachable && s.gatewayLatency > PING_WARN_MS)
      || Ripe(0, DnsFailure, !s.dnsReachable)
    }

    lemma WillPushIsDue(s: NetState)
      requires Valid() && |s.ifaces| <= MAX_INTERFACES
      ensures WillPush(s) <==> PushDue(history, s, ignored)
    {
      hide LogsLatest, CounterOf, IsDown, HasErrors, KindIndex;
      forall i: nat | i < |s.ifaces| ensures RipeIface(i, s.ifaces[i]) <==> IfaceDue(history, i, s.ifaces[i], ignored) {
        assert hyst[i, KindIndex(IfaceDown)] == CounterOf(history, i, IfaceDown);
        assert hyst[i, KindIndex(PacketErrors)] == CounterOf(history, i, PacketErrors);
      }
      assert hyst[0, KindIndex(GatewayUnreachable)] == CounterOf(history, 0, GatewayUnreachable);
      assert hyst[0, KindIndex(DnsFailure)] == CounterOf(history, 0, DnsFailure);
    }

    /** `alerts_init`; the list of ignored interfaces comes parsed. */
    constructor (ignore: seq<bytes>)
      ensures Valid() && history == [] && activeCount == 0 && ignored == ignore && fresh(log) && fresh(hyst)
    {
      hide Valid, KindIndex;
      var entries := EmptyLog();
      var counters := ZeroCounters();
      log, hyst := entries, counters;
      head, count, activeCount := 0, 0, 0;
      ignored := ignore;
      history := [];
      new;
      StartIsValid();
    }

    lemma StartIsValid()
      requires log.Length == MAX_ALERTS && hyst.Length0 == MAX_INTERFACES && hyst.Length1 == KINDS
      requires head == count == 0 && history == []
      requires forall i, j :: 0 <= i < MAX_INTERFACES && 0 <= j < KINDS ==> hyst[i, j] == 0
      ensures Valid()
    {
      hide CounterOf, Raised, AlertsOf, Entries, Recent, KindIndex;
      NothingLogged(log[..]);
      NothingYet();
    }

    /** `push_alert` */
    method PushAlert(alert: Alert)
      requires Shape()
      modifies log, `head, `count, `activeCount
      ensures Shape()
      ensures Entries(log[..], head, count) == Recent(old(Entries(log[..], head, count)) + [alert], MAX_ALERTS)
      ensures count == Min(old(count) + 1, MAX_ALERTS) && activeCount == old(activeCount) + 1
    {
      hide Entries, Recent;
      PushAppends(log[..], head, count, alert);
      NextIsModulo(head, MAX_ALERTS);
      log[head] := alert;
      head := (head + 1) % MAX_ALERTS;
      if count < MAX_ALERTS { count := count + 1; }
      activeCount := activeCount + 1;
    }

    /** Pushing the alert of an event that raises one. */
    method Append(alert: Alert, ghost e: Event)
      requires Shape() && LogsLatest()
      requires AlertsOf(Raised(history + [e])) == AlertsOf(Raised(history)) + [alert]
      modifies log, `head, `count, `activeCount, `history
      ensures Shape() && LogsLatest()
      ensures history == old(history) + [e] && activeCount == old(activeCount) + 1
    {
      hide Entries, Recent, Raised, AlertsOf;
      RecentTwice(AlertsOf(Raised(history)), [alert], MAX_ALERTS);
      PushAlert(alert);
      history := history + [e];
    }

    /** The hysteresis block every watched condition goes through. */
    method Observe(slot: nat, alert: Alert, bad: bool)
      requires Valid() && slot < MAX_INTERFACES
      modifies this, log, hyst
      ensures Valid() && history == old(history) + [Watch(slot, alert, bad)]
      ensures activeCount == old(activeCount) + |Raised(history)| - |Raised(old(history))|
    {
      hide CounterOf, Entries, Recent, Raised, AlertsOf, KindIndex, Due;
      ghost var before, e := history, Watch(slot, alert, bad);
      var k := KindIndex(alert.kind);
      KindsDiffer();
      WatchRaises(before, e);
      CountersStep(before, e);
      assert hyst[slot, k] == CounterOf(before, slot, alert.kind);
      if bad {
        hyst[slot, k] := hyst[slot, k] + 1;
        if hyst[slot, k] >= HYSTERESIS {
          Append(alert, e);
          hyst[slot, k] := 0;
        } else {
          history := history + [e];
        }
      } else {
        hyst[slot, k] := 0;
        history := history + [e];
      }
    }

    /** A condition without hysteresis. */
    method Raise(alert: Alert)
      requires Valid()
      modifies this, log, hyst
      ensures Valid() && history == old(history) + [Notice(alert)]
      ensures activeCount == old(activeCount) + |Raised(history)| - |Raised(old(history))|
    {
      hide CounterOf, Entries, Recent, Raised, AlertsOf, KindIndex;
      NoticeRaises(history, alert);
      OthersObserve(history, Notice(alert));
      Append(alert, Notice(alert));
    }

    /**
     * `alerts_check`. The count it leaves is the number of active log entries exactly when no alert was due before
     * the check; otherwise it is too high by the alerts just pushed.
     */
    method Check(s: NetState, now: nat)
      requires Valid() && |s.ifaces| <= MAX_INTERFACES
      modifies this, log, hyst
      ensures Valid() && history == old(history) + CheckEvents(s, ignored, now)
      ensures activeCount == |Raised(history)| - |Raised(old(history))| + ActiveIn(log[..count])
      ensures ActiveIn(log[..count]) == ActiveInLog(history) && activeCount == Reported(old(history), s, ignored, now)
      ensures activeCount == ActiveIn(log[..count]) <==> !old(WillPush(s))
    {
      hide Valid, Recent, Raised, AlertsOf, ActiveIn, CheckEvents, AllIfaceEvents, GatewayEvents, LatencyEvents,
        DnsEvents, WillPush, PushDue, Grows;
      ghost var h := history;
      WillPushIsDue(s);
      CheckGrows(h, s, ignored, now);
      activeCount := 0;
      CheckIfaces(s.ifaces, now);
      CheckGateway(s, now);
      CheckLatency(s, now);
      CheckDns(s, now);
      EventsAppend(h, s, ignored, now);
      GrowsIs(h, CheckEvents(s, ignored, now));
      CountActive();
    }

    method CheckGateway(s: NetState, now: nat)
      requires Valid()
      modifies this, log, hyst
      ensures Valid() && history == old(history) + GatewayEvents(s, now)
      ensures activeCount == old(activeCount) + |Raised(history)| - |Raised(old(history))|
    {
      hide Valid, Raised;
      Observe(0, GatewayAlert(now), !s.gatewayReachable);
    }

    method CheckDns(s: NetState, now: nat)
      requires Valid()
      modifies this, log, hyst
      ensures Valid() && history == old(history) + DnsEvents(s, now)
      ensures activeCount == old(activeCount) + |Raised(history)| - |Raised(old(history))|
    {
      hide Valid, Raised;
      Observe(0, DnsAlert(now), !s.dnsReachable);
    }

    method CheckIfaces(ifaces: seq<Iface>, now: nat)
      requires Valid() && |ifaces| <= MAX_INTERFACES
      modifies this, log, hyst
      ensures Valid() && history == old(history) + AllIfaceEvents(ifaces, ignored, now)
      ensures activeCount == old(activeCount) + |Raised(history)| - |Raised(old(history))|
    {
      hide Raised, LogsLatest, CountsStreaks;
      for i := 0 to |ifaces|
        invariant Valid() && history == old(history) + AllIfaceEvents(ifaces[..i], ignored, now)
        invariant activeCount == old(activeCount) + |Raised(history)| - |Raised(old(history))|
      {
        assert ifaces[..i + 1][..i] == ifaces[..i];
        if ifaces[i].name !in ignored {
          Observe(i, DownAlert(ifaces[i], now), IsDown(ifaces[i]));
          Observe(i, ErrorAlert(ifaces[i], now), HasErrors(ifaces[i]));
        }
      }
      assert ifaces[..|ifaces|] == ifaces;
    }

    method CheckLatency(s: NetState, now: nat)
      requires Valid()
      modifies this, log, hyst
      ensures Valid() && history == old(history) + LatencyEvents(s, now)
      ensures activeCount == old(activeCount) + |Raised(history)| - |Raised(old(history))|
    {
      hide Raised, LogsLatest, CountsStreaks;
      if s.gatewayReachable && s.gatewayLatency > PING_CRIT_MS {
        Raise(Alert(HighLatency, Critical, now, [], "Very high gateway latency", true));
      } else if s.gatewayReachable && s.gatewayLatency > PING_WARN_MS {
        Raise(Alert(HighLatency, Warning, now, [], "High gateway latency", true));
      }
    }

    /** The loop over the log at the end of a check. */
    method CountActive()
      requires Valid()
      modifies `activeCount
      ensures Valid()
      ensures count <= log.Length && activeCount == old(activeCount) + ActiveIn(log[..count])
      ensures ActiveIn(log[..count]) == ActiveInLog(history)
    {
      hide Raised, AlertsOf, Recent, Entries, CountsStreaks, ActiveIn;
      ActiveAnyOrder(log[..], head, count);
      assert log[..][..count] == log[..count];
      var n := ActiveUpTo(count);
      activeCount := activeCount + n;
    }

    method ActiveUpTo(last: nat) returns (n: nat)
      requires last <= log.Length
      ensures n == ActiveIn(log[..last])
    {
      n := 0;
      for i := 0 to last
        invariant n == ActiveIn(log[..i])
      {
        assert log[..i + 1][..i] == log[..i];
        if log[i].active { n := n + 1; }
      }
    }

    /** `alerts_clear_all` */
    method ClearAll()
      requires Valid()
      modifies this, log
      ensures Valid() && history == old(history) + [Cleared] && activeCount == 0
    {
      hide Raised, AlertsOf, Recent, Entries, CounterOf, KindIndex, Inactive;
      ghost var was := log[..];
      ClearRaises(history);
      EntriesInactive(was, head, count);
      RecentInactive(AlertsOf(Raised(history)), MAX_ALERTS);
      OthersObserve(history, Cleared);
      Deactivate();
      activeCount := 0;
      history := history + [Cleared];
    }

    method Deactivate()
      requires log.Length == MAX_ALERTS
      modifies log
      ensures log[..] == Inactive(old(log[..]))
    {
      ghost var was := log[..];
      for i := 0 to MAX_ALERTS
        invariant forall j :: 0 <= j < i ==> log[j] == was[j].(active := false)
        invariant forall j :: i <= j < MAX_ALERTS ==> log[j] == was[j]
      {
        log[i] := log[i].(active := false);
      }
    }
  }

  method EmptyLog() returns (log: array<Alert>)
    ensures fresh(log) && log.Length == MAX_ALERTS
  {
    log := new Alert[MAX_ALERTS](_ => Alert(IfaceDown, Info, 0, [], "", false));
  }

  method ZeroCounters() returns (counters: array2<nat>)
    ensures fresh(counters) && counters.Length0 == MAX_INTERFACES && counters.Length1 == KINDS
    ensures forall i, j :: 0 <= i < MAX_INTERFACES && 0 <= j < KINDS ==> counters[i, j] == 0
  {
    counters := new nat[MAX_INTERFACES, KINDS]((_, _) => 0);
  }

  lemma NothingLogged(a: seq<Alert>)
    requires |a| == MAX_ALERTS
    ensures |Raised([])| == 0 && Entries(a, 0, 0) == Recent(AlertsOf(Raised([])), MAX_ALERTS)
  {
  }

  lemma GrowsIs(h: History, g: History)
    ensures |Raised(h + g)| >= |Raised(h)|
    ensures Grows(h, g) <==> |Raised(h + g)| != |Raised(h)|
  {
    NeverFewer(h, g);
  }

  /** Where the count is wrong: after one check of a slow gateway, two alerts are reported and one is active. */
  method SlowGatewayReport(now: nat) returns (reported: nat, active: nat)
    ensures reported == 2 && active == 1
  {
    hide Raised, ActiveIn, CheckEvents;
    var e := new Engine([]);
    e.Check(NetState([], true, 200.0, true), now);
    OneSlowPing(now);
    assert [] + CheckEvents(NetState([], true, 200.0, true), [], now) ==
      CheckEvents(NetState([], true, 200.0, true), [], now);
    reported := e.activeCount;
    active := e.ActiveUpTo(e.count);
  }
}
