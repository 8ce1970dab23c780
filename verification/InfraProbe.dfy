/** The round robin over infrastructure devices in the medium tick. */
module InfraProbe {
  import opened Ring

  datatype Device = Device(enabled: bool, reachable: bool, latency: real, fails: nat)

  /** The positions of enabled devices met on a walk of `steps` positions from `start`, going around the table. */
  function Walk(devices: seq<Device>, start: nat, steps: nat): (w: seq<nat>)
    requires start < |devices|
    decreases steps
  {
    if steps == 0 then []
    else (if devices[start].enabled then [start] else []) + Walk(devices, Next(start, |devices|), steps - 1)
  }

  function Enabled(devices: seq<Device>): nat {
    if devices == [] then 0 else Enabled(devices[..|devices| - 1]) + if devices[|devices| - 1].enabled then 1 else 0
  }

  /** Where a walk of `steps` positions ends. */
  function Along(size: nat, start: nat, steps: nat): (r: nat)
    requires start < size
    ensures r < size
    decreases steps
  {
    if steps == 0 then start else Along(size, Next(start, size), steps - 1)
  }

  /** The probe's result goes to the device: a success clears the count of failures, a failure adds to it. */
  function Probed(d: Device, ok: bool, latency: real): Device {
    d.(reachable := ok, latency := latency, fails := if ok then 0 else d.fails + 1)
  }

  /** The first enabled position on a walk around the table, as a number of steps from `start`. */
  function FirstEnabled(devices: seq<Device>, start: nat, steps: nat): (a: nat)
    requires start < |devices|
    ensures a <= steps
    decreases steps
  {
    if steps == 0 || devices[start].enabled then 0
    else 1 + FirstEnabled(devices, Next(start, |devices|), steps - 1)
  }

  lemma {:induction false} AlongMore(size: nat, start: nat, m: nat, n: nat)
    requires start < size
    ensures Along(size, start, m + n) == Along(size, Along(size, start, m), n)
    decreases m
  {
    if m > 0 { AlongMore(size, Next(start, size), m - 1, n); }
  }

  lemma {:induction false} WalkMore(devices: seq<Device>, start: nat, m: nat, n: nat)
    requires start < |devices|
    ensures Walk(devices, start, m + n) == Walk(devices, start, m) + Walk(devices, Along(|devices|, start, m), n)
    decreases m
  {
    if m > 0 { WalkMore(devices, Next(start, |devices|), m - 1, n); }
  }

  /** A walk meets nothing before its first enabled position. */
  lemma {:induction false} WalkFirst(devices: seq<Device>, start: nat, steps: nat)
    requires start < |devices|
    ensures var a := FirstEnabled(devices, start, steps);
      Walk(devices, start, a) == [] && (a < steps ==> devices[Along(|devices|, start, a)].enabled)
    ensures FirstEnabled(devices, start, steps) == steps <==> Walk(devices, start, steps) == []
    decreases steps
  {
    if steps > 0 && !devices[start].enabled { WalkFirst(devices, Next(start, |devices|), steps - 1); }
  }

  /** Going straight up the table meets exactly the enabled devices, in order. */
  lemma {:induction false} AlongUp(size: nat, start: nat, steps: nat)
    requires start < size && start + steps <= size
    ensures Along(size, start, steps) == if start + steps == size && steps > 0 then 0 else start + steps
    decreases steps
  {
    if steps > 0 {
      if steps == 1 {
        assert Along(size, Next(start, size), 0) == Next(start, size);
      } else {
        AlongUp(size, start + 1, steps - 1);
      }
    }
  }

  function Times(w: seq<nat>, x: nat): nat {
    if w == [] then 0 else (if w[0] == x then 1 else 0) + Times(w[1..], x)
  }

  lemma {:induction false} TimesAppend(a: seq<nat>, b: seq<nat>, x: nat)
    ensures Times(a + b, x) == Times(a, x) + Times(b, x)
  {
    if a == [] {
      assert a + b == b;
    } else {
      assert (a + b)[1..] == a[1..] + b;
      TimesAppend(a[1..], b, x);
    }
  }

  lemma {:induction false} UpMeetsOnce(devices: seq<Device>, start: nat, steps: nat, x: nat)
    requires start < |devices| && start + steps <= |devices| && x < |devices|
    ensures Times(Walk(devices, start, steps), x) == if start <= x < start + steps && devices[x].enabled then 1 else 0
    decreases steps
  {
    if steps > 0 {
      if steps > 1 {
        UpMeetsOnce(devices, start + 1, steps - 1, x);
      }
      var here := if devices[start].enabled then [start] else [];
      TimesAppend(here, Walk(devices, Next(start, |devices|), steps - 1), x);
      assert here == [start] ==> here[1..] == [];
    }
  }

  /** A full round from anywhere meets every enabled device once and no other. */
  lemma RoundMeetsOnce(devices: seq<Device>, start: nat, x: nat)
    requires start < |devices| && x < |devices|
    ensures Times(Walk(devices, start, |devices|), x) == if devices[x].enabled then 1 else 0
  {
    var up := |devices| - start;
    WalkMore(devices, start, up, start);
    AlongUp(|devices|, start, up);
    UpMeetsOnce(devices, start, up, x);
    UpMeetsOnce(devices, 0, start, x);
    TimesAppend(Walk(devices, start, up), Walk(devices, 0, start), x);
  }

  // ---- one tick ----

  /** Which device a tick starting at `start` probes: none when none is enabled. */
  function Target(devices: seq<Device>, start: nat): (t: seq<nat>)
    requires start < |devices|
    ensures |t| <= 1
  {
    var w := Walk(devices, start, |devices|);
    if w == [] then [] else [w[0]]
  }

  /** Where the next tick starts. */
  function After(devices: seq<Device>, start: nat): (r: nat)
    requires start < |devices|
    ensures r < |devices|
  {
    var t := Target(devices, start);
    if t == [] then start else
    TargetInTable(devices, start);
    Next(t[0], |devices|)
  }

  lemma {:induction false} WalkInTable(devices: seq<Device>, start: nat, steps: nat)
    requires start < |devices|
    ensures forall i :: 0 <= i < |Walk(devices, start, steps)| ==> Walk(devices, start, steps)[i] < |devices|
    decreases steps
  {
    if steps > 0 { WalkInTable(devices, Next(start, |devices|), steps - 1); }
  }

  lemma TargetInTable(devices: seq<Device>, start: nat)
    requires start < |devices|
    ensures forall i :: 0 <= i < |Target(devices, start)| ==> Target(devices, start)[i] < |devices|
  {
    WalkInTable(devices, start, |devices|);
  }

  lemma AlongAround(size: nat, start: nat)
    requires start < size
    ensures Along(size, start, size) == start
  {
    AlongMore(size, start, size - start, start);
    AlongUp(size, start, size - start);
    AlongUp(size, 0, start);
  }

  /** A tick takes the first stop of the round; the next round has the same stops, that one moved to the end. */
  lemma RoundRotates(devices: seq<Device>, start: nat)
    requires start < |devices| && Walk(devices, start, |devices|) != []
    ensures var round := Walk(devices, start, |devices|);
      Walk(devices, After(devices, start), |devices|) == round[1..] + [round[0]]
  {
    hide Walk, Along, FirstEnabled;
    var n := |devices|;
    var a := FirstEnabled(devices, start, n);
    WalkFirst(devices, start, n);
    var p := Along(n, start, a);
    WalkMore(devices, start, a, n - a);
    OneStep(devices, p, n - a);
    var q := Next(p, n);
    var rest := Walk(devices, q, n - a - 1);
    assert Walk(devices, start, n) == [p] + rest;
    assert After(devices, start) == q;
    WalkMore(devices, q, n - a - 1, a + 1);
    AlongMore(n, start, a + 1, n - a - 1);
    AlongMore(n, start, a, 1);
    OneAlong(n, p);
    AlongAround(n, start);
    WalkMore(devices, start, a, 1);
    OneStep(devices, p, 1);
    NoSteps(devices, q);
    assert Walk(devices, start, a + 1) == [p];
  }

  lemma OneStep(devices: seq<Device>, p: nat, steps: nat)
    requires p < |devices| && devices[p].enabled && steps > 0
    ensures Walk(devices, p, steps) == [p] + Walk(devices, Next(p, |devices|), steps - 1)
  {
  }

  lemma OneAlong(size: nat, p: nat)
    requires p < size
    ensures Along(size, p, 1) == Next(p, size)
  {
    assert Along(size, Next(p, size), 0) == Next(p, size);
  }

  lemma NoSteps(devices: seq<Device>, p: nat)
    requires p < |devices|
    ensures Walk(devices, p, 0) == []
  {
  }

  // ---- many ticks ----

  /** The devices probed by `ticks` consecutive ticks. */
  function Probes(devices: seq<Device>, start: nat, ticks: nat): seq<nat>
    requires start < |devices|
    decreases ticks
  {
    if ticks == 0 then [] else Target(devices, start) + Probes(devices, After(devices, start), ticks - 1)
  }

  lemma {:induction false} ProbesFollowRound(devices: seq<Device>, start: nat, ticks: nat)
    requires start < |devices| && ticks <= |Walk(devices, start, |devices|)|
    ensures Probes(devices, start, ticks) == Walk(devices, start, |devices|)[..ticks]
    decreases ticks
  {
    hide Walk;
    var round := Walk(devices, start, |devices|);
    if ticks > 0 {
      RoundRotates(devices, start);
      ProbesFollowRound(devices, After(devices, start), ticks - 1);
      assert (round[1..] + [round[0]])[..ticks - 1] == round[1..ticks];
      assert round[..ticks] == [round[0]] + round[1..ticks];
    }
  }

  lemma {:induction false} WalkCounts(devices: seq<Device>, n: nat)
    requires n <= |devices| && devices != []
    ensures |Walk(devices, 0, n)| == Enabled(devices[..n])
  {
    if n > 0 {
      WalkCounts(devices, n - 1);
      WalkMore(devices, 0, n - 1, 1);
      AlongUp(|devices|, 0, n - 1);
      assert devices[..n][..n - 1] == devices[..n - 1];
      assert Walk(devices, Next(n - 1, |devices|), 0) == [];
    }
  }

  lemma RoundLength(devices: seq<Device>, start: nat)
    requires start < |devices|
    ensures |Walk(devices, start, |devices|)| == Enabled(devices)
  {
    var n := |devices|;
    WalkMore(devices, start, n - start, start);
    AlongUp(n, start, n - start);
    WalkMore(devices, 0, start, n - start);
    AlongUp(n, 0, start);
    WalkCounts(devices, n);
    assert devices[..n] == devices;
  }

  /** Fairness: with E devices enabled, any E consecutive ticks probe each of them exactly once. */
  lemma EveryDeviceOnce(devices: seq<Device>, start: nat, x: nat)
    requires start < |devices| && x < |devices|
    ensures Times(Probes(devices, start, Enabled(devices)), x) == if devices[x].enabled then 1 else 0
  {
    hide Walk, Probes, Times;
    RoundLength(devices, start);
    ProbesFollowRound(devices, start, Enabled(devices));
    RoundMeetsOnce(devices, start, x);
    var round := Walk(devices, start, |devices|);
    assert round[..|round|] == round;
  }

  // ---- the loop ----

  /** The tick's effect on the table: only the target learns the result. */
  function Updated(devices: seq<Device>, start: nat, ok: bool, latency: real): (r: seq<Device>)
    requires start < |devices|
    ensures |r| == |devices|
  {
    TargetInTable(devices, start);
    var t := Target(devices, start);
    if t == [] then devices else devices[t[0] := Probed(devices[t[0]], ok, latency)]
  }

  /** The infrastructure part of `medium_timer_cb`; the outcome of the ping is given. */
  method ProbeNext(devices: array<Device>, index: nat, ok: bool, latency: real) returns (next: nat)
    requires devices.Length > 0
    modifies devices
    ensures next == After(old(devices[..]), index % devices.Length)
    ensures devices[..] == Updated(old(devices[..]), index % devices.Length, ok, latency)
  {
    hide Walk, Along;
    ghost var table, n, start := devices[..], devices.Length, index % devices.Length;
    next := index;
    var attempts := 0;
    NoSteps(table, start);
    NoAlong(n, start);
    while attempts < devices.Length
      invariant 0 <= attempts <= n && devices[..] == table
      invariant next % n == Along(n, start, attempts) && (attempts > 0 ==> next < n)
      invariant Walk(table, start, attempts) == []
    {
      var idx := next % devices.Length;
      AlongMore(n, start, attempts, 1);
      OneAlong(n, idx);
      NextIsModulo(idx, n);
      NextWraps(next, n);
      next := (next + 1) % devices.Length;
      WalkMore(table, start, attempts, n - attempts);
      WalkMore(table, start, attempts, 1);
      if devices[idx].enabled {
        OneStep(table, idx, n - attempts);
        devices[idx] := Probed(devices[idx], ok, latency);
        return;
      }
      SkipStep(table, idx);
      SmallIsItself(next, n);
      attempts := attempts + 1;
    }
    AlongAround(n, start);
    SmallIsItself(next, n);
  }

  lemma NoAlong(size: nat, start: nat)
    requires start < size
    ensures Along(size, start, 0) == start
  {
  }

  lemma NextWraps(i: nat, n: nat)
    requires n > 0
    ensures (i + 1) % n == (i % n + 1) % n
  {
    var q, r := i / n, i % n;
    assert i == q * n + r;
    if r + 1 < n {
      Remainder(i + 1, n, q, r + 1);
      Remainder(r + 1, n, 0, r + 1);
    } else {
      assert i + 1 == (q + 1) * n;
      Remainder(i + 1, n, q + 1, 0);
      Remainder(n, n, 1, 0);
    }
  }

  lemma Remainder(a: nat, n: nat, q: nat, r: nat)
    requires 0 < n && a == q * n + r && r < n
    ensures a % n == r
  {
    var p, s := a / n, a % n;
    assert a == p * n + s;
    Multiples(p, q + 1, n);
    Multiples(q, p + 1, n);
  }

  lemma Multiples(x: int, y: int, n: nat)
    ensures x >= y ==> x * n >= y * n
    ensures (y - 1) * n == y * n - n
  {
    assert (x - y) * n == x * n - y * n;
  }

  lemma SmallIsItself(a: nat, n: nat)
    requires a < n
    ensures a % n == a
  {
    Remainder(a, n, 0, a);
  }

  lemma SkipStep(devices: seq<Device>, p: nat)
    requires p < |devices| && !devices[p].enabled
    ensures Walk(devices, p, 1) == []
  {
    assert Walk(devices, Next(p, |devices|), 0) == [];
  }

  /** Results do not change who is probed: rounds depend on the enabled marks alone. */
  lemma {:induction false} ResultsDoNotMatter(a: seq<Device>, b: seq<Device>, start: nat, steps: nat)
    requires start < |a| == |b| && forall i :: 0 <= i < |a| ==> a[i].enabled == b[i].enabled
    ensures Walk(a, start, steps) == Walk(b, start, steps)
    decreases steps
  {
    if steps > 0 { ResultsDoNotMatter(a, b, Next(start, |a|), steps - 1); }
  }

  /** The table after `|pings|` ticks with these outcomes, and the devices they probed. */
  datatype Ping = Ping(ok: bool, latency: real)

  function Rounds(devices: seq<Device>, start: nat, pings: seq<Ping>): (probed: seq<nat>)
    requires start < |devices|
    decreases |pings|
  {
    if pings == [] then [] else
    Target(devices, start) +
    Rounds(Updated(devices, start, pings[0].ok, pings[0].latency), After(devices, start), pings[1..])
  }

  lemma {:induction false} RoundsAreProbes(devices: seq<Device>, table: seq<Device>, start: nat, pings: seq<Ping>)
    requires start < |devices| == |table|
    requires forall i :: 0 <= i < |devices| ==> devices[i].enabled == table[i].enabled
    ensures Rounds(table, start, pings) == Probes(devices, start, |pings|)
    decreases |pings|
  {
    hide Walk, Probed;
    EnabledStays();
    ResultsDoNotMatter(devices, table, start, |devices|);
    if pings != [] {
      RoundsAreProbes(devices, Updated(table, start, pings[0].ok, pings[0].latency), After(devices, start), pings[1..]);
    }
  }

  lemma EnabledStays()
    ensures forall d: Device, ok: bool, latency: real :: Probed(d, ok, latency).enabled == d.enabled
  {
  }

  /** Fairness of the real sequence of ticks, whatever the pings report. */
  lemma TicksAreFair(devices: seq<Device>, start: nat, pings: seq<Ping>, x: nat)
    requires start < |devices| && x < |devices| && |pings| == Enabled(devices)
    ensures Times(Rounds(devices, start, pings), x) == if devices[x].enabled then 1 else 0
  {
    hide Rounds, Probes, Times, Enabled;
    RoundsAreProbes(devices, devices, start, pings);
    EveryDeviceOnce(devices, start, x);
  }
}
