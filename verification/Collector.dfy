/** The network collector: rates, totals and histories under any interleaving of fast and slow ticks. */
module Collector {
  import opened AppConf
  import opened Bytes
  import opened Ring

  const MINUTE: nat := 60
  const TWO64: int := 0x1_0000_0000_0000_0000

  type uint64 = x: int | 0 <= x < 0x1_0000_0000_0000_0000

  // ---- data ----

  datatype Stats = Stats(
    name: bytes, rxBytes: uint64, txBytes: uint64, rxPackets: uint64, txPackets: uint64, rxErrors: uint64,
    txErrors: uint64)

  datatype Rates = Rates(
    rxBytes: real, txBytes: real, rxPackets: real, txPackets: real, rxErrors: real, txErrors: real)

  /** What enumeration tells about an interface. */
  datatype Info = Info(name: bytes, isUp: bool, isRunning: bool)

  datatype Iface = Iface(
    info: Info, stats: Stats, rates: Rates, peakRx: real, peakTx: real, rxToday: uint64, txToday: uint64)

  datatype Sample = Sample(rx: real, tx: real)

  /** A history ring. */
  datatype Samples = Samples(data: seq<Sample>, head: nat, count: nat) {
    predicate Valid() { head < |data| && count <= |data| }

    function Live(): seq<Sample>
      requires Valid()
    {
      Entries(data, head, count)
    }

    /** `history_push` */
    function Push(s: Sample): Samples
      requires Valid()
    {
      Samples(data[head := s], Next(head, |data|), Min(count + 1, |data|))
    }
  }

  /** The histories and minute accumulators kept beside each interface. */
  datatype Lane = Lane(short: Samples, long: Samples, accRx: real, accTx: real)

  predicate GoodLane(l: Lane) {
    l.short.Valid() && l.long.Valid() && |l.short.data| == SHORT_LEN && |l.long.data| == LONG_LEN
  }

  /** The collector's static variables. */
  datatype Model = Model(
    num: nat, ifaces: seq<Iface>, lanes: seq<Lane>, prev: seq<Stats>, prevValid: bool, prevTime: real, minutes: nat)

  ghost predicate Valid(m: Model) {
    && |m.ifaces| == |m.lanes| == |m.prev| == MAX_INTERFACES
    && m.num <= MAX_INTERFACES
    && m.minutes < MINUTE
    && forall k :: 0 <= k < MAX_INTERFACES ==> GoodLane(m.lanes[k])
  }

  // ---- lookup by name ----

  /** The first position of `name`, or -1. */
  function IndexOf(names: seq<bytes>, name: bytes): (k: int)
    ensures -1 <= k < |names|
    ensures k >= 0 ==> names[k] == name
    ensures forall i :: 0 <= i < |names| && (k < 0 || i < k) ==> names[i] != name
  {
    if names == [] then -1
    else if names[0] == name then 0
    else
      var k := IndexOf(names[1..], name);
      assert forall i :: 0 < i < |names| ==> names[i] == names[1..][i - 1];
      if k < 0 then -1 else k + 1
  }

  function IfaceNames(s: seq<Iface>): (r: seq<bytes>)
    ensures |r| == |s|
  {
    seq(|s|, i requires 0 <= i < |s| => s[i].info.name)
  }

  function StatNames(s: seq<Stats>): (r: seq<bytes>)
    ensures |r| == |s|
  {
    seq(|s|, i requires 0 <= i < |s| => s[i].name)
  }

  /** The names of the known interfaces, in order. */
  function Names(m: Model): seq<bytes>
    requires m.num <= |m.ifaces|
  {
    IfaceNames(m.ifaces[..m.num])
  }

  /** Where a sample's interface is known. */
  function Known(m: Model, name: bytes): (k: int)
    requires m.num <= |m.ifaces|
    ensures -1 <= k < m.num
  {
    IndexOf(Names(m), name)
  }

  /** Where the previous sample of an interface is looked up: only as far as there are known interfaces. */
  function Before(m: Model, name: bytes): (j: int)
    requires m.num <= |m.prev|
    ensures -1 <= j < m.num
  {
    IndexOf(StatNames(m.prev[..m.num]), name)
  }

  // ---- one fast tick ----

  function Diff(a: uint64, b: uint64): uint64 { (a - b) % TWO64 }

  function RatesOf(c: Stats, p: Stats, dt: real): Rates
    requires dt > 0.0
  {
    Rates(Diff(c.rxBytes, p.rxBytes) as real / dt, Diff(c.txBytes, p.txBytes) as real / dt,
      Diff(c.rxPackets, p.rxPackets) as real / dt, Diff(c.txPackets, p.txPackets) as real / dt,
      Diff(c.rxErrors, p.rxErrors) as real / dt, Diff(c.txErrors, p.txErrors) as real / dt)
  }

  function Larger(a: real, b: real): real { if a > b then a else b }

  function CreditIface(f: Iface, c: Stats, p: Stats, dt: real): Iface
    requires dt > 0.0
  {
    var r := RatesOf(c, p, dt);
    f.(rates := r, peakRx := Larger(r.rxBytes, f.peakRx), peakTx := Larger(r.txBytes, f.peakTx),
       rxToday := (f.rxToday + Diff(c.rxBytes, p.rxBytes)) % TWO64,
       txToday := (f.txToday + Diff(c.txBytes, p.txBytes)) % TWO64)
  }

  function CreditLane(l: Lane, r: Rates): Lane
    requires GoodLane(l)
  {
    l.(short := l.short.Push(Sample(r.rxBytes, r.txBytes)), accRx := l.accRx + r.rxBytes, accTx := l.accTx + r.txBytes)
  }

  /** One interface of the current sample. */
  function Credit(m: Model, c: Stats, dt: real): Model
    requires dt > 0.0 && Valid(m)
  {
    var k, j := Known(m, c.name), Before(m, c.name);
    if k < 0 || j < 0 then m
    else
      m.(ifaces := m.ifaces[k := CreditIface(m.ifaces[k], c, m.prev[j], dt)],
         lanes := m.lanes[k := CreditLane(m.lanes[k], RatesOf(c, m.prev[j], dt))])
  }

  lemma CreditValid(m: Model, c: Stats, dt: real)
    requires dt > 0.0 && Valid(m)
    ensures Valid(Credit(m, c, dt)) && Names(Credit(m, c, dt)) == Names(m)
  {
    hide IndexOf, CreditIface, RatesOf;
    var k, j := Known(m, c.name), Before(m, c.name);
    if k >= 0 && j >= 0 {
      LaneStaysGood(m.lanes[k], RatesOf(c, m.prev[j], dt));
      InfoStays(m.ifaces[k], c, m.prev[j], dt);
    }
  }

  lemma LaneStaysGood(l: Lane, r: Rates)
    requires GoodLane(l)
    ensures GoodLane(CreditLane(l, r))
  {
  }

  lemma InfoStays(f: Iface, c: Stats, p: Stats, dt: real)
    requires dt > 0.0
    ensures CreditIface(f, c, p, dt).info == f.info && CreditIface(f, c, p, dt).stats == f.stats
  {
  }

  function CreditAll(m: Model, cur: seq<Stats>, dt: real): (r: Model)
    requires dt > 0.0 && Valid(m)
    ensures Valid(r) && Names(r) == Names(m)
    ensures r.num == m.num && r.prev == m.prev && r.minutes == m.minutes
    ensures r.prevValid == m.prevValid && r.prevTime == m.prevTime
  {
    hide Valid, Known, Before, CreditIface, CreditLane, RatesOf, Names;
    if cur == [] then m else
    var before := CreditAll(m, cur[..|cur| - 1], dt);
    CreditValid(before, cur[|cur| - 1], dt);
    Credit(before, cur[|cur| - 1], dt)
  }

  /** The rates of this tick, when there is a previous sample and time has passed. */
  function Counted(m: Model, cur: seq<Stats>, now: real): (r: Model)
    requires Valid(m)
    ensures Valid(r) && Names(r) == Names(m)
    ensures r.num == m.num && r.prev == m.prev && r.minutes == m.minutes
  {
    hide Valid, Names, CreditAll;
    if m.prevValid && now - m.prevTime > 0.0 then CreditAll(m, cur, now - m.prevTime) else m
  }

  function Average(sums: Sample): Sample { Sample(sums.rx / 60.0, sums.tx / 60.0) }

  function FlushLane(l: Lane): Lane
    requires GoodLane(l)
  {
    l.(long := l.long.Push(Average(Sample(l.accRx, l.accTx))), accRx := 0.0, accTx := 0.0)
  }

  /** The minute averages, pushed for the known interfaces. */
  function FlushLanes(lanes: seq<Lane>, num: nat): (r: seq<Lane>)
    requires num <= |lanes| && forall k :: 0 <= k < |lanes| ==> GoodLane(lanes[k])
    ensures |r| == |lanes|
  {
    seq(|lanes|, k requires 0 <= k < |lanes| => if k < num then FlushLane(lanes[k]) else lanes[k])
  }

  function Minute(m: Model): (r: Model)
    requires Valid(m)
    ensures Valid(r) && Names(r) == Names(m)
    ensures r.num == m.num && r.prev == m.prev && r.ifaces == m.ifaces
  {
    if m.minutes + 1 < MINUTE then m.(minutes := m.minutes + 1)
    else m.(lanes := FlushLanes(m.lanes, m.num), minutes := 0)
  }

  function Restated(m: Model, c: Stats): (r: Model)
    requires Valid(m)
    ensures Valid(r) && Names(r) == Names(m)
    ensures r.num == m.num && r.prev == m.prev && r.lanes == m.lanes && r.minutes == m.minutes
  {
    hide IndexOf, GoodLane;
    var k := Known(m, c.name);
    if k < 0 then m else m.(ifaces := m.ifaces[k := m.ifaces[k].(stats := c)])
  }

  /** The raw counters shown with each interface. */
  function RestatedAll(m: Model, cur: seq<Stats>): (r: Model)
    requires Valid(m)
    ensures Valid(r) && Names(r) == Names(m)
    ensures r.num == m.num && r.prev == m.prev && r.lanes == m.lanes && r.minutes == m.minutes
  {
    hide Valid, Names, Restated;
    if cur == [] then m else Restated(RestatedAll(m, cur[..|cur| - 1]), cur[|cur| - 1])
  }

  function Remembered(m: Model, cur: seq<Stats>, now: real): (r: Model)
    requires Valid(m) && |cur| <= MAX_INTERFACES
    ensures Valid(r) && Names(r) == Names(m) && r.num == m.num
  {
    m.(prev := cur + m.prev[|cur|..], prevTime := now, prevValid := true)
  }

  /** `fast_timer_cb` */
  function Fast(m: Model, cur: seq<Stats>, now: real): (r: Model)
    requires Valid(m) && |cur| <= MAX_INTERFACES
    ensures Valid(r) && Names(r) == Names(m) && r.num == m.num
  {
    hide Valid, Names, Minute, Counted, RestatedAll, Remembered;
    Remembered(RestatedAll(Minute(Counted(m, cur, now)), cur), cur, now)
  }

  // ---- one slow tick ----

  const NO_STATS: Stats := Stats([], 0, 0, 0, 0, 0, 0)
  const NO_RATES: Rates := Rates(0.0, 0.0, 0.0, 0.0, 0.0, 0.0)

  /** A zeroed interface record with its info filled in. */
  function NewIface(i: Info): Iface { Iface(i, NO_STATS, NO_RATES, 0.0, 0.0, 0, 0) }

  function Merge(m: Model, i: Info): (r: Model)
    requires Valid(m)
    ensures Valid(r) && m.num <= r.num <= m.num + 1
  {
    hide IndexOf, GoodLane;
    var k := Known(m, i.name);
    if k >= 0 then m.(ifaces := m.ifaces[k := m.ifaces[k].(info := i)])
    else if m.num < MAX_INTERFACES then m.(ifaces := m.ifaces[m.num := NewIface(i)], num := m.num + 1)
    else m
  }

  /** The enumeration at the start of `slow_timer_cb`, merged into the table. */
  function Slow(m: Model, found: seq<Info>): (r: Model)
    requires Valid(m)
    ensures Valid(r)
  {
    hide Valid, Merge;
    if found == [] then m else Merge(Slow(m, found[..|found| - 1]), found[|found| - 1])
  }

  // ---- names ----

  predicate Distinct(names: seq<bytes>) {
    forall i, j :: 0 <= i < j < |names| ==> names[i] != names[j]
  }

  lemma MergeNames(m: Model, i: Info)
    requires Valid(m)
    ensures Names(Merge(m, i)) == Names(m) || (Names(Merge(m, i)) == Names(m) + [i.name] && i.name !in Names(m))
  {
    hide IndexOf;
  }

  lemma {:induction false} SlowNames(m: Model, found: seq<Info>)
    requires Valid(m) && Distinct(Names(m))
    ensures Distinct(Names(Slow(m, found))) && Names(m) <= Names(Slow(m, found))
    decreases |found|
  {
    hide Valid, Merge, Names;
    if found != [] {
      SlowNames(m, found[..|found| - 1]);
      MergeNames(Slow(m, found[..|found| - 1]), found[|found| - 1]);
    }
  }

  datatype Tick = FastTick(cur: seq<Stats>, now: real) | SlowTick(found: seq<Info>)

  predicate Readable(t: Tick) { t.FastTick? ==> |t.cur| <= MAX_INTERFACES }

  function Step(m: Model, t: Tick): (r: Model)
    requires Valid(m) && Readable(t)
    ensures Valid(r)
  {
    match t
    case FastTick(cur, now) => Fast(m, cur, now)
    case SlowTick(found) => Slow(m, found)
  }

  predicate AllReadable(ticks: seq<Tick>) { forall i :: 0 <= i < |ticks| ==> Readable(ticks[i]) }

  function Run(m: Model, ticks: seq<Tick>): (r: Model)
    requires Valid(m) && AllReadable(ticks)
    ensures Valid(r)
  {
    hide Valid, Step;
    if ticks == [] then m else Step(Run(m, ticks[..|ticks| - 1]), ticks[|ticks| - 1])
  }

  /** Under any interleaving of ticks names stay distinct, and no interface ever changes its position. */
  lemma {:induction false} NamesAreStable(m: Model, ticks: seq<Tick>)
    requires Valid(m) && AllReadable(ticks) && Distinct(Names(m))
    ensures Distinct(Names(Run(m, ticks))) && Names(m) <= Names(Run(m, ticks))
    decreases |ticks|
  {
    hide Valid, Fast, Slow, Names;
    if ticks != [] {
      var front, t := ticks[..|ticks| - 1], ticks[|ticks| - 1];
      NamesAreStable(m, front);
      if t.SlowTick? { SlowNames(Run(m, front), t.found); }
    }
  }

  // ---- what a tick credits to one interface ----

  datatype Direction = Rx | Tx

  function Counter(c: Stats, d: Direction): uint64 { if d == Rx then c.rxBytes else c.txBytes }
  function Today(f: Iface, d: Direction): uint64 { if d == Rx then f.rxToday else f.txToday }
  function Acc(l: Lane, d: Direction): real { if d == Rx then l.accRx else l.accTx }

  /** Entry `c` of a sample counts for interface `k`. */
  predicate CountsFor(m: Model, c: Stats, k: nat)
    requires Valid(m)
  {
    Known(m, c.name) == k && Before(m, c.name) >= 0
  }

  function Delta(m: Model, c: Stats, d: Direction): uint64
    requires Valid(m) && Before(m, c.name) >= 0
  {
    Diff(Counter(c, d), Counter(m.prev[Before(m, c.name)], d))
  }

  function ByteShare(m: Model, c: Stats, k: nat, d: Direction): nat
    requires Valid(m)
  {
    if CountsFor(m, c, k) then Delta(m, c, d) else 0
  }

  function RateShare(m: Model, c: Stats, dt: real, k: nat, d: Direction): real
    requires Valid(m) && dt > 0.0
  {
    if CountsFor(m, c, k) then Delta(m, c, d) as real / dt else 0.0
  }

  /** The bytes a sample adds to interface `k`. */
  function BytesFor(m: Model, cur: seq<Stats>, k: nat, d: Direction): nat
    requires Valid(m)
  {
    if cur == [] then 0 else BytesFor(m, cur[..|cur| - 1], k, d) + ByteShare(m, cur[|cur| - 1], k, d)
  }

  /** The rates it adds. */
  function RatesFor(m: Model, cur: seq<Stats>, dt: real, k: nat, d: Direction): real
    requires Valid(m) && dt > 0.0
  {
    if cur == [] then 0.0 else RatesFor(m, cur[..|cur| - 1], dt, k, d) + RateShare(m, cur[|cur| - 1], dt, k, d)
  }

  /** Two states in which every lookup has the same result. */
  predicate SameLookups(m: Model, n: Model) {
    && |m.ifaces| == |n.ifaces| == |m.prev| == |n.prev| == MAX_INTERFACES
    && m.num == n.num <= MAX_INTERFACES && m.prev == n.prev
    && Names(m) == Names(n)
  }

  lemma CreditOne(m: Model, before: Model, c: Stats, dt: real, k: nat, d: Direction)
    requires Valid(m) && Valid(before) && SameLookups(m, before) && dt > 0.0 && k < m.num
    ensures var after := Credit(before, c, dt);
      && |after.ifaces| == |before.ifaces| == |after.lanes| == |before.lanes| == MAX_INTERFACES
      && Today(after.ifaces[k], d) == (Today(before.ifaces[k], d) + ByteShare(m, c, k, d)) % TWO64
      && Acc(after.lanes[k], d) == Acc(before.lanes[k], d) + RateShare(m, c, dt, k, d)
      && after.lanes[k].long == before.lanes[k].long
  {
    hide Known, Before, Names, SameLookups, CreditIface, CreditLane, RatesOf, Today, Acc, Diff, Counter;
    LookupsAgree(m, before, c);
    ShapeOf(before);
    var j := Before(m, c.name);
    SmallModulo(Today(before.ifaces[k], d));
    if CountsFor(m, c, k) {
      CreditedIface(before.ifaces[k], c, m.prev[j], dt, d);
      CreditedLane(before.lanes[k], c, m.prev[j], dt, d);
    }
  }

  lemma LookupsAgree(m: Model, n: Model, c: Stats)
    requires SameLookups(m, n)
    ensures Known(m, c.name) == Known(n, c.name) && Before(m, c.name) == Before(n, c.name) && m.prev == n.prev
  {
    hide IndexOf, Names;
  }

  lemma CreditedIface(f: Iface, c: Stats, p: Stats, dt: real, d: Direction)
    requires dt > 0.0
    ensures Today(CreditIface(f, c, p, dt), d) == (Today(f, d) + Diff(Counter(c, d), Counter(p, d))) % TWO64
  {
    hide Diff, RatesOf;
  }

  lemma CreditedLane(l: Lane, c: Stats, p: Stats, dt: real, d: Direction)
    requires dt > 0.0 && GoodLane(l)
    ensures var after := CreditLane(l, RatesOf(c, p, dt));
      after.long == l.long && Acc(after, d) == Acc(l, d) + Diff(Counter(c, d), Counter(p, d)) as real / dt
  {
    hide Diff;
  }

  /** Interface `k` after `bytes` and `rates` have been added to it. */
  predicate Added(m: Model, after: Model, k: nat, d: Direction, bytes: nat, rates: real)
    requires k < |m.ifaces| == |after.ifaces| == |m.lanes| == |after.lanes|
  {
    && Today(after.ifaces[k], d) == (Today(m.ifaces[k], d) + bytes) % TWO64
    && Acc(after.lanes[k], d) == Acc(m.lanes[k], d) + rates
    && after.lanes[k].long == m.lanes[k].long
  }

  lemma {:induction false} CreditSums(m: Model, cur: seq<Stats>, dt: real, k: nat, d: Direction)
    requires Valid(m) && dt > 0.0 && k < m.num
    ensures var after := CreditAll(m, cur, dt);
      && k < MAX_INTERFACES == |m.ifaces| == |after.ifaces| == |m.lanes| == |after.lanes|
      && Added(m, after, k, d, BytesFor(m, cur, k, d), RatesFor(m, cur, dt, k, d))
    decreases |cur|
  {
    hide Valid, Credit, ByteShare, RateShare, Names, Added, CreditAll, BytesFor, RatesFor;
    ShapeOf(m);
    CreditStep(m, cur, dt, k, d);
    if cur == [] {
      AddedNothing(m, k, d);
    } else {
      var front, c := cur[..|cur| - 1], cur[|cur| - 1];
      CreditSums(m, front, dt, k, d);
      var before := CreditAll(m, front, dt);
      ShapeOf(before);
      CreditAdds(m, before, c, dt, k, d, BytesFor(m, front, k, d), RatesFor(m, front, dt, k, d));
    }
  }

  lemma CreditAdds(m: Model, before: Model, c: Stats, dt: real, k: nat, d: Direction, bytes: nat, rates: real)
    requires Valid(m) && Valid(before) && SameLookups(m, before) && dt > 0.0 && k < m.num
    requires |m.lanes| == |before.lanes| == MAX_INTERFACES && Added(m, before, k, d, bytes, rates)
    ensures var after := Credit(before, c, dt);
      && |after.ifaces| == |after.lanes| == MAX_INTERFACES
      && Added(m, after, k, d, bytes + ByteShare(m, c, k, d), rates + RateShare(m, c, dt, k, d))
  {
    hide Valid, Credit, ByteShare, RateShare, Today, Acc;
    CreditOne(m, before, c, dt, k, d);
    AddModulo(Today(m.ifaces[k], d) + bytes, ByteShare(m, c, k, d));
  }

  lemma AddedNothing(m: Model, k: nat, d: Direction)
    requires k < |m.ifaces| == |m.lanes|
    ensures Added(m, m, k, d, 0, 0.0)
  {
    SmallModulo(Today(m.ifaces[k], d));
  }

  lemma CreditStep(m: Model, cur: seq<Stats>, dt: real, k: nat, d: Direction)
    requires Valid(m) && dt > 0.0
    ensures cur == [] ==> CreditAll(m, cur, dt) == m && BytesFor(m, cur, k, d) == 0 && RatesFor(m, cur, dt, k, d) == 0.0
    ensures cur != [] ==>
      var front, c := cur[..|cur| - 1], cur[|cur| - 1];
      && CreditAll(m, cur, dt) == Credit(CreditAll(m, front, dt), c, dt)
      && BytesFor(m, cur, k, d) == BytesFor(m, front, k, d) + ByteShare(m, c, k, d)
      && RatesFor(m, cur, dt, k, d) == RatesFor(m, front, dt, k, d) + RateShare(m, c, dt, k, d)
  {
    hide Valid, Credit, ByteShare, RateShare;
  }

  lemma ShapeOf(m: Model)
    requires Valid(m)
    ensures |m.ifaces| == |m.lanes| == |m.prev| == MAX_INTERFACES && m.num <= MAX_INTERFACES && m.minutes < MINUTE
  {
  }

  lemma SmallModulo(a: uint64)
    ensures a % TWO64 == a
  {
  }

  lemma AddModulo(a: nat, b: nat)
    ensures (a % TWO64 + b) % TWO64 == (a + b) % TWO64
  {
  }

  // ---- one fast tick, seen from one interface ----

  /** The tick counts: there is a previous sample, and time has passed since. */
  predicate Counts(m: Model, now: real) { m.prevValid && now - m.prevTime > 0.0 }

  function TickBytes(m: Model, cur: seq<Stats>, now: real, k: nat, d: Direction): nat
    requires Valid(m)
  {
    if Counts(m, now) then BytesFor(m, cur, k, d) else 0
  }

  function TickRates(m: Model, cur: seq<Stats>, now: real, k: nat, d: Direction): real
    requires Valid(m)
  {
    if Counts(m, now) then RatesFor(m, cur, now - m.prevTime, k, d) else 0.0
  }

  lemma CountedAdds(m: Model, cur: seq<Stats>, now: real, k: nat, d: Direction)
    requires Valid(m) && k < m.num
    ensures var after := Counted(m, cur, now);
      && k < MAX_INTERFACES == |m.ifaces| == |after.ifaces| == |m.lanes| == |after.lanes|
      && Added(m, after, k, d, TickBytes(m, cur, now, k, d), TickRates(m, cur, now, k, d))
  {
    hide Valid, CreditAll, BytesFor, RatesFor, Added, Names;
    ShapeOf(m);
    if Counts(m, now) {
      CreditSums(m, cur, now - m.prevTime, k, d);
    } else {
      AddedNothing(m, k, d);
    }
  }

  lemma {:induction false} RestatedKeeps(m: Model, cur: seq<Stats>, k: nat, d: Direction)
    requires Valid(m) && k < m.num
    ensures var after := RestatedAll(m, cur);
      k < |m.ifaces| == |after.ifaces| && Today(after.ifaces[k], d) == Today(m.ifaces[k], d)
    decreases |cur|
  {
    hide Valid, Names, Known, Today;
    ShapeOf(m);
    if cur != [] {
      var front := RestatedAll(m, cur[..|cur| - 1]);
      RestatedKeeps(m, cur[..|cur| - 1], k, d);
      ShapeOf(front);
      StatsAreNotTotals(d);
    }
  }

  lemma StatsAreNotTotals(d: Direction)
    ensures forall f: Iface, c: Stats :: Today(f.(stats := c), d) == Today(f, d)
  {
  }

  /** The totals, the accumulators and the long history of interface `k` after a fast tick. */
  lemma FastLane(m: Model, cur: seq<Stats>, now: real, k: nat, d: Direction)
    requires Valid(m) && |cur| <= MAX_INTERFACES && k < m.num
    ensures var after := Fast(m, cur, now);
      && |m.ifaces| == |after.ifaces| == |m.lanes| == |after.lanes| == MAX_INTERFACES
      && GoodLane(m.lanes[k])
      && Today(after.ifaces[k], d) == (Today(m.ifaces[k], d) + TickBytes(m, cur, now, k, d)) % TWO64
      && (m.minutes + 1 < MINUTE ==>
            && after.minutes == m.minutes + 1
            && Acc(after.lanes[k], d) == Acc(m.lanes[k], d) + TickRates(m, cur, now, k, d)
            && after.lanes[k].long == m.lanes[k].long)
      && (m.minutes + 1 >= MINUTE ==>
            && after.minutes == 0
            && Acc(after.lanes[k], d) == 0.0
            && after.lanes[k].long == m.lanes[k].long.Push(
                 Average(Sample(m.lanes[k].accRx + TickRates(m, cur, now, k, Rx),
                                m.lanes[k].accTx + TickRates(m, cur, now, k, Tx)))))
  {
    hide CreditAll, TickBytes, TickRates, Names, Today, RestatedAll, GoodLane, IndexOf, Average;
    CountedAdds(m, cur, now, k, d);
    CountedAdds(m, cur, now, k, Rx);
    CountedAdds(m, cur, now, k, Tx);
    RestatedKeeps(Minute(Counted(m, cur, now)), cur, k, d);
  }

  // ---- totals telescope ----

  /** `name` stands exactly once in the sample, at a position below the number of known interfaces. */
  predicate Seen(num: nat, cur: seq<Stats>, name: bytes, p: nat) {
    p < num && p < |cur| && cur[p].name == name && forall i :: 0 <= i < |cur| && cur[i].name == name ==> i == p
  }

  lemma {:induction false} BytesOfSeen(m: Model, cur: seq<Stats>, n: nat, p: nat, k: nat, d: Direction)
    requires Valid(m) && n <= |cur| && p < |cur|
    requires forall i :: 0 <= i < |cur| && cur[i].name == cur[p].name ==> i == p
    requires CountsFor(m, cur[p], k)
    ensures BytesFor(m, cur[..n], k, d) == if p < n then Delta(m, cur[p], d) else 0
  {
    hide Valid, Delta, IndexOf;
    if n > 0 {
      BytesOfSeen(m, cur, n - 1, p, k, d);
      assert cur[..n][..n - 1] == cur[..n - 1];
    }
  }

  /** The counter of the previous sample that the next fast tick would subtract. */
  function Base(m: Model, name: bytes, d: Direction): uint64
    requires Valid(m) && Before(m, name) >= 0
  {
    Counter(m.prev[Before(m, name)], d)
  }

  lemma IndexIs(names: seq<bytes>, name: bytes, k: nat)
    requires k < |names| && names[k] == name && forall i :: 0 <= i < k ==> names[i] != name
    ensures IndexOf(names, name) == k
  {
    hide IndexOf;
    var j := IndexOf(names, name);
    assert j >= 0;
    assert j >= k && j <= k;
  }

  /** After a fast tick that saw the interface, its new base is the counter it was seen with. */
  lemma BaseAfter(m: Model, cur: seq<Stats>, now: real, name: bytes, p: nat, d: Direction)
    requires Valid(m) && |cur| <= MAX_INTERFACES && Seen(m.num, cur, name, p)
    ensures var after := Fast(m, cur, now);
      && Before(after, name) == p
      && Base(after, name, d) == Counter(cur[p], d)
      && after.prevValid && after.prevTime == now && after.prev == cur + m.prev[|cur|..]
  {
    hide Valid, Names, RestatedAll, Minute, Counted, IndexOf, Counter;
    var before := RestatedAll(Minute(Counted(m, cur, now)), cur);
    ShapeOf(m);
    ShapeOf(before);
    var after := Fast(m, cur, now);
    assert after == Remembered(before, cur, now);
    assert after.prev == cur + m.prev[|cur|..];
    IndexIs(StatNames(after.prev[..after.num]), name, p);
  }

  lemma Telescopes(today: uint64, cur: uint64, base: uint64)
    ensures ((today + Diff(cur, base)) % TWO64 - cur) % TWO64 == (today - base) % TWO64
  {
    AddModulo(today, Diff(cur, base));
    var x := cur - base;
    assert x == TWO64 * (x / TWO64) + x % TWO64;
    ShiftModulo(today - base, -(x / TWO64));
    var y := today + Diff(cur, base);
    assert y == TWO64 * (y / TWO64) + y % TWO64;
    ShiftModulo(y % TWO64 - cur, y / TWO64);
  }

  lemma ShiftModulo(a: int, k: int)
    ensures (a + TWO64 * k) % TWO64 == a % TWO64
  {
  }

  /** Today's total minus the latest counter: what every counted tick leaves alone. */
  function Balance(m: Model, name: bytes, k: nat, d: Direction): uint64
    requires Valid(m) && k < m.num && Before(m, name) >= 0
  {
    Diff(Today(m.ifaces[k], d), Base(m, name, d))
  }

  lemma FastKeepsBalance(m: Model, cur: seq<Stats>, now: real, name: bytes, p: nat, k: nat, d: Direction)
    requires Valid(m) && |cur| <= MAX_INTERFACES && Counts(m, now) && Seen(m.num, cur, name, p)
    requires Known(m, name) == k && Before(m, name) >= 0
    ensures var after := Fast(m, cur, now);
      && Known(after, name) == k && Before(after, name) >= 0
      && Balance(after, name, k, d) == Balance(m, name, k, d)
  {
    hide Valid, Names, Fast, Before, Counter, Today, RatesFor, Acc, BytesFor, IndexOf, Base, Diff;
    ShapeOf(m);
    BaseAfter(m, cur, now, name, p, d);
    FastLane(m, cur, now, k, d);
    BytesOfSeen(m, cur, |cur|, p, k, d);
    assert cur[..|cur|] == cur;
    DeltaIs(m, cur[p], d);
    Telescopes(Today(m.ifaces[k], d), Counter(cur[p], d), Base(m, name, d));
    DiffIs(Today(m.ifaces[k], d), Base(m, name, d));
    DiffIs(Today(Fast(m, cur, now).ifaces[k], d), Counter(cur[p], d));
  }

  lemma DeltaIs(m: Model, c: Stats, d: Direction)
    requires Valid(m) && Before(m, c.name) >= 0
    ensures Delta(m, c, d) == Diff(Counter(c, d), Base(m, c.name, d))
  {
  }

  lemma DiffIs(a: uint64, b: uint64)
    ensures Diff(a, b) == (a - b) % TWO64
  {
  }

  lemma MergeKeepsBalance(m: Model, i: Info, name: bytes, k: nat, d: Direction)
    requires Valid(m) && Known(m, name) == k && Before(m, name) >= 0
    ensures var after := Merge(m, i);
      && Known(after, name) == k && Before(after, name) >= 0
      && after.prevValid == m.prevValid && after.prevTime == m.prevTime
      && Balance(after, name, k, d) == Balance(m, name, k, d)
  {
    hide Valid, IndexOf, Counter, Today;
    ShapeOf(m);
    var after := Merge(m, i);
    ShapeOf(after);
    MergeNames(m, i);
    InfoIsNoTotal(d);
    IndexIs(Names(after), name, k);
    BeforeStays(m.prev, m.num, after.num, name);
  }

  lemma BeforeStays(prev: seq<Stats>, n: nat, more: nat, name: bytes)
    requires n <= more <= |prev| && IndexOf(StatNames(prev[..n]), name) >= 0
    ensures IndexOf(StatNames(prev[..more]), name) == IndexOf(StatNames(prev[..n]), name)
  {
    hide IndexOf;
    var few, many := StatNames(prev[..n]), StatNames(prev[..more]);
    assert forall i :: 0 <= i < n ==> few[i] == many[i];
    IndexIs(many, name, IndexOf(few, name));
  }

  lemma InfoIsNoTotal(d: Direction)
    ensures forall f: Iface, i: Info :: Today(f.(info := i), d) == Today(f, d)
  {
  }

  lemma {:induction false} SlowKeepsBalance(m: Model, found: seq<Info>, name: bytes, k: nat, d: Direction)
    requires Valid(m) && Known(m, name) == k && Before(m, name) >= 0
    ensures var after := Slow(m, found);
      && Known(after, name) == k && Before(after, name) >= 0
      && after.prevValid == m.prevValid && after.prevTime == m.prevTime
      && Balance(after, name, k, d) == Balance(m, name, k, d)
    decreases |found|
  {
    hide Valid, Merge, Known, Before, Balance;
    if found != [] {
      SlowKeepsBalance(m, found[..|found| - 1], name, k, d);
      MergeKeepsBalance(Slow(m, found[..|found| - 1]), found[|found| - 1], name, k, d);
    }
  }

  /** Every fast tick comes later than the one before it and sees the interface. */
  ghost predicate Steady(m: Model, ticks: seq<Tick>, name: bytes)
    requires Valid(m) && AllReadable(ticks)
    decreases |ticks|
  {
    hide Valid, Run;
    ticks == [] || (
      var front, t := ticks[..|ticks| - 1], ticks[|ticks| - 1];
      Steady(m, front, name) &&
      (t.FastTick? ==> t.now > Run(m, front).prevTime && exists p :: Seen(Run(m, front).num, t.cur, name, p)))
  }

  /**
   * Whatever fast and slow ticks come in between, the bytes counted for an interface that every sample sees are its
   * latest counter minus the one the counting began with, modulo 2^64.
   */
  lemma {:induction false} TotalsTelescope(m: Model, ticks: seq<Tick>, name: bytes, k: nat, d: Direction)
    requires Valid(m) && AllReadable(ticks) && Steady(m, ticks, name)
    requires m.prevValid && Known(m, name) == k && Before(m, name) >= 0
    ensures var after := Run(m, ticks);
      && after.prevValid && Known(after, name) == k && Before(after, name) >= 0
      && Balance(after, name, k, d) == Balance(m, name, k, d)
    decreases |ticks|
  {
    hide Valid, Fast, Slow, Known, Before, Balance, Seen;
    if ticks != [] {
      var front, t := ticks[..|ticks| - 1], ticks[|ticks| - 1];
      TotalsTelescope(m, front, name, k, d);
      var before := Run(m, front);
      match t
      case SlowTick(found) => SlowKeepsBalance(before, found, name, k, d);
      case FastTick(cur, now) =>
        var p :| Seen(before.num, cur, name, p);
        FastKeepsBalance(before, cur, now, name, p, k, d);
        PrevIsValid(before, cur, now);
    }
  }

  lemma PrevIsValid(m: Model, cur: seq<Stats>, now: real)
    requires Valid(m) && |cur| <= MAX_INTERFACES
    ensures Fast(m, cur, now).prevValid && Fast(m, cur, now).prevTime == now
  {
    hide Valid, Counted, Minute, RestatedAll;
  }

  /** For an interface that had counted nothing yet, the total itself is that difference. */
  lemma TotalFromZero(m: Model, ticks: seq<Tick>, name: bytes, k: nat, d: Direction)
    requires Valid(m) && AllReadable(ticks) && Steady(m, ticks, name)
    requires m.prevValid && Known(m, name) == k && Before(m, name) >= 0 && Today(m.ifaces[k], d) == 0
    ensures var after := Run(m, ticks);
      && Known(after, name) == k && Before(after, name) >= 0
      && Today(after.ifaces[k], d) == Diff(Base(after, name, d), Base(m, name, d))
  {
    hide Valid, Run, Steady, Known, Before, Today, Base;
    TotalsTelescope(m, ticks, name, k, d);
    ShapeOf(m);
    var after := Run(m, ticks);
    ShapeOf(after);
    FromZero(Today(after.ifaces[k], d), Base(after, name, d), Base(m, name, d));
  }

  lemma FromZero(today: uint64, last: uint64, first: uint64)
    requires Diff(today, last) == Diff(0, first)
    ensures today == Diff(last, first)
  {
  }

  /** The first fast tick after the start counts nothing: it only takes the counters the counting begins with. */
  lemma FirstTickOnlyLooks(m: Model, cur: seq<Stats>, now: real, k: nat, d: Direction)
    requires Valid(m) && |cur| <= MAX_INTERFACES && !m.prevValid && k < m.num
    ensures |m.ifaces| == |Fast(m, cur, now).ifaces| == MAX_INTERFACES
    ensures Today(Fast(m, cur, now).ifaces[k], d) == Today(m.ifaces[k], d)
  {
    hide Valid, Fast, Today;
    ShapeOf(m);
    FastLane(m, cur, now, k, d);
    SmallModulo(Today(m.ifaces[k], d));
  }

  // ---- the long history ----

  /** Rates credited to interface `k` since the last flush, and the sums of the minutes flushed so far. */
  datatype Ledger = Ledger(flushed: seq<Sample>, rx: real, tx: real)

  function Entered(g: Ledger, flush: bool, rx: real, tx: real): Ledger {
    if flush then Ledger(g.flushed + [Sample(g.rx + rx, g.tx + tx)], 0.0, 0.0)
    else Ledger(g.flushed, g.rx + rx, g.tx + tx)
  }

  /** Bookkeeping over a run, independent of the accumulators: every sixtieth fast tick closes a minute. */
  ghost function Booked(m: Model, ticks: seq<Tick>, k: nat): Ledger
    requires Valid(m) && AllReadable(ticks)
    decreases |ticks|
  {
    hide Valid, Run;
    if ticks == [] then Ledger([], 0.0, 0.0) else
    var front, t := ticks[..|ticks| - 1], ticks[|ticks| - 1];
    var before := Run(m, front);
    match t
    case SlowTick(_) => Booked(m, front, k)
    case FastTick(cur, now) =>
      Entered(Booked(m, front, k), (m.minutes + FastTicks(ticks)) % MINUTE == 0,
        TickRates(before, cur, now, k, Rx), TickRates(before, cur, now, k, Tx))
  }

  function FastTicks(ticks: seq<Tick>): nat {
    if ticks == [] then 0 else FastTicks(ticks[..|ticks| - 1]) + if ticks[|ticks| - 1].FastTick? then 1 else 0
  }

  /** Sixty times a stored average is the sum of its minute. */
  function Averages(sums: seq<Sample>): (r: seq<Sample>)
    ensures |r| == |sums|
  {
    seq(|sums|, i requires 0 <= i < |sums| => Average(sums[i]))
  }

  function LongOf(l: Lane): seq<Sample>
    requires GoodLane(l)
  {
    l.long.Live()
  }

  /** The lane of interface `k` agrees with the books, given what its long history began with. */
  predicate Agrees(l: Lane, g: Ledger, start: seq<Sample>)
    requires GoodLane(l)
  {
    && l.accRx == g.rx && l.accTx == g.tx
    && LongOf(l) == Recent(start + Averages(g.flushed), LONG_LEN)
  }

  lemma PushShows(r: Samples, s: Sample)
    requires r.Valid()
    ensures r.Push(s).Valid() && r.Push(s).Live() == Recent(r.Live() + [s], |r.data|)
  {
    hide Entries, Recent;
    PushAppends(r.data, r.head, r.count, s);
  }

  lemma RecentAverages(start: seq<Sample>, sums: seq<Sample>, s: Sample)
    ensures Recent(Recent(start + Averages(sums), LONG_LEN) + [Average(s)], LONG_LEN) ==
      Recent(start + Averages(sums + [s]), LONG_LEN)
  {
    hide Recent, Average;
    RecentTwice(start + Averages(sums), [Average(s)], LONG_LEN);
    assert Averages(sums + [s]) == Averages(sums) + [Average(s)];
    assert (start + Averages(sums)) + [Average(s)] == start + Averages(sums + [s]);
  }

  lemma FlushAgrees(l: Lane, after: Lane, g: Ledger, start: seq<Sample>, rx: real, tx: real)
    requires GoodLane(l) && GoodLane(after) && Agrees(l, g, start)
    requires after.accRx == 0.0 && after.accTx == 0.0
    requires after.long == l.long.Push(Average(Sample(l.accRx + rx, l.accTx + tx)))
    ensures Agrees(after, Entered(g, true, rx, tx), start)
  {
    hide Recent, Averages, Average, Entries;
    var s := Sample(g.rx + rx, g.tx + tx);
    PushShows(l.long, Average(s));
    RecentAverages(start, g.flushed, s);
  }

  lemma FastAgrees(m: Model, cur: seq<Stats>, now: real, k: nat, g: Ledger, start: seq<Sample>)
    requires Valid(m) && |cur| <= MAX_INTERFACES && k < m.num
    requires |m.lanes| == MAX_INTERFACES && GoodLane(m.lanes[k]) && Agrees(m.lanes[k], g, start)
    ensures var after := Fast(m, cur, now);
      && |after.lanes| == MAX_INTERFACES && GoodLane(after.lanes[k])
      && Agrees(after.lanes[k],
           Entered(g, m.minutes + 1 >= MINUTE, TickRates(m, cur, now, k, Rx), TickRates(m, cur, now, k, Tx)), start)
      && after.minutes == if m.minutes + 1 >= MINUTE then 0 else m.minutes + 1
  {
    hide Fast, TickRates, TickBytes, GoodLane, Today, Recent, Averages, Average;
    FastLane(m, cur, now, k, Rx);
    FastLane(m, cur, now, k, Tx);
    LanesAreGood(Fast(m, cur, now), k);
    if m.minutes + 1 >= MINUTE {
      FlushAgrees(m.lanes[k], Fast(m, cur, now).lanes[k], g, start,
        TickRates(m, cur, now, k, Rx), TickRates(m, cur, now, k, Tx));
    }
  }

  lemma LanesAreGood(m: Model, k: nat)
    requires Valid(m) && k < MAX_INTERFACES
    ensures |m.lanes| == MAX_INTERFACES && GoodLane(m.lanes[k])
  {
  }

  lemma {:induction false} SlowKeepsLanes(m: Model, found: seq<Info>)
    requires Valid(m)
    ensures Slow(m, found).lanes == m.lanes && Slow(m, found).minutes == m.minutes && Slow(m, found).num >= m.num
    decreases |found|
  {
    hide Valid, Known;
    if found != [] { SlowKeepsLanes(m, found[..|found| - 1]); }
  }

  /**
   * Conservation: from a state with empty accumulators on, sixty times each sample of an interface's long history is
   * the sum of the rates credited to it in that minute, the history holds the last 1440 minutes, and what is not yet
   * flushed is in the accumulators.
   */
  lemma {:induction false} LongHistoryAddsUp(m: Model, ticks: seq<Tick>, k: nat)
    requires Valid(m) && AllReadable(ticks) && k < m.num
    requires |m.lanes| == MAX_INTERFACES && GoodLane(m.lanes[k]) && m.lanes[k].accRx == m.lanes[k].accTx == 0.0
    ensures var after := Run(m, ticks);
      && k < after.num && |after.lanes| == MAX_INTERFACES && GoodLane(after.lanes[k])
      && after.minutes == (m.minutes + FastTicks(ticks)) % MINUTE
      && Agrees(after.lanes[k], Booked(m, ticks, k), LongOf(m.lanes[k]))
    decreases |ticks|
  {
    hide Valid, Fast, Slow, TickRates, GoodLane, Agrees, LongOf;
    ShapeOf(m);
    if ticks == [] {
      AgreesAtStart(m.lanes[k]);
    } else {
      var front, t := ticks[..|ticks| - 1], ticks[|ticks| - 1];
      LongHistoryAddsUp(m, front, k);
      var before, start := Run(m, front), LongOf(m.lanes[k]);
      match t
      case SlowTick(found) => SlowKeepsLanes(before, found);
      case FastTick(cur, now) =>
        FastAgrees(before, cur, now, k, Booked(m, front, k), start);
        NextMinute(m.minutes + FastTicks(front));
    }
  }

  lemma AgreesAtStart(l: Lane)
    requires GoodLane(l) && l.accRx == l.accTx == 0.0
    ensures Agrees(l, Ledger([], 0.0, 0.0), LongOf(l))
  {
    assert LongOf(l) + Averages([]) == LongOf(l);
  }

  lemma NextMinute(n: nat)
    ensures (n + 1) % MINUTE == if n % MINUTE + 1 >= MINUTE then 0 else n % MINUTE + 1
  {
  }

  // ---- what a fast tick shows of an interface it sees once ----

  predicate OnlyAt(cur: seq<Stats>, p: nat)
    requires p < |cur|
  {
    forall i :: 0 <= i < |cur| && cur[i].name == cur[p].name ==> i == p
  }

  /** Interface `k` stands with this record and this lane. */
  predicate Stands(m: Model, k: nat, f: Iface, l: Lane) {
    k < MAX_INTERFACES == |m.ifaces| == |m.lanes| && m.ifaces[k] == f && m.lanes[k] == l
  }

  lemma CreditElsewhere(m: Model, c: Stats, dt: real, k: nat, f: Iface, l: Lane)
    requires Valid(m) && dt > 0.0 && Known(m, c.name) != k && Stands(m, k, f, l)
    ensures Stands(Credit(m, c, dt), k, f, l)
  {
    hide Valid, CreditIface, CreditLane, RatesOf, Known, Before;
    ShapeOf(m);
  }

  lemma CreditHere(m: Model, before: Model, c: Stats, dt: real, k: nat, f: Iface, l: Lane)
    requires Valid(m) && Valid(before) && SameLookups(m, before) && dt > 0.0 && CountsFor(m, c, k)
    requires Stands(before, k, f, l) && GoodLane(l)
    ensures var p := m.prev[Before(m, c.name)];
      Stands(Credit(before, c, dt), k, CreditIface(f, c, p, dt), CreditLane(l, RatesOf(c, p, dt)))
  {
    hide Valid, CreditIface, CreditLane, RatesOf, Known, Before, GoodLane;
    LookupsAgree(m, before, c);
    ShapeOf(before);
  }

  lemma {:induction false} CreditedOnce(m: Model, cur: seq<Stats>, n: nat, p: nat, dt: real, k: nat, f: Iface, l: Lane)
    requires Valid(m) && dt > 0.0 && n <= |cur| && p < |cur| && OnlyAt(cur, p) && CountsFor(m, cur[p], k)
    requires Stands(m, k, f, l) && GoodLane(l)
    ensures var before := m.prev[Before(m, cur[p].name)];
      if p < n then
        Stands(CreditAll(m, cur[..n], dt), k, CreditIface(f, cur[p], before, dt),
          CreditLane(l, RatesOf(cur[p], before, dt)))
      else Stands(CreditAll(m, cur[..n], dt), k, f, l)
    decreases n
  {
    hide Valid, CreditAll, Credit, CreditIface, CreditLane, RatesOf, GoodLane, Names, Known, Before, BytesFor, RatesFor,
      Stands, OnlyAt;
    ShapeOf(m);
    CreditStep(m, cur[..n], dt, k, Rx);
    if n > 0 {
      CreditedOnce(m, cur, n - 1, p, dt, k, f, l);
      var front := CreditAll(m, cur[..n - 1], dt);
      assert cur[..n][..n - 1] == cur[..n - 1];
      ShapeOf(front);
      if n - 1 == p {
        CreditHere(m, front, cur[p], dt, k, f, l);
      } else {
        var before := m.prev[Before(m, cur[p].name)];
        OthersDiffer(cur, p, n - 1);
        KnownElsewhere(m, cur[n - 1].name, cur[p].name, k);
        LookupsAgree(m, front, cur[n - 1]);
        CreditElsewhere(front, cur[n - 1], dt, k, if p < n then CreditIface(f, cur[p], before, dt) else f,
          if p < n then CreditLane(l, RatesOf(cur[p], before, dt)) else l);
      }
    }
  }

  lemma OthersDiffer(cur: seq<Stats>, p: nat, i: nat)
    requires p < |cur| && i < |cur| && OnlyAt(cur, p) && i != p
    ensures cur[i].name != cur[p].name
  {
  }

  lemma KnownElsewhere(m: Model, a: bytes, b: bytes, k: nat)
    requires Valid(m) && a != b && Known(m, b) == k
    ensures Known(m, a) != k
  {
    hide Valid, IndexOf;
    ShapeOf(m);
  }

  lemma RestatedThere(m: Model, c: Stats, k: nat)
    requires Valid(m) && k < MAX_INTERFACES
    ensures var after := Restated(m, c);
      && |m.ifaces| == |after.ifaces| == MAX_INTERFACES
      && after.ifaces[k] == if Known(m, c.name) == k then m.ifaces[k].(stats := c) else m.ifaces[k]
  {
    hide Valid, Known;
    ShapeOf(m);
  }

  lemma {:induction false} RestatedOnce(m: Model, cur: seq<Stats>, n: nat, p: nat, k: nat)
    requires Valid(m) && n <= |cur| && p < |cur| && OnlyAt(cur, p) && Known(m, cur[p].name) == k
    ensures var after := RestatedAll(m, cur[..n]);
      && k < MAX_INTERFACES == |m.ifaces| == |after.ifaces|
      && after.ifaces[k] == (if p < n then m.ifaces[k].(stats := cur[p]) else m.ifaces[k])
    decreases n
  {
    hide Valid, Names, Known, Restated;
    ShapeOf(m);
    if n > 0 {
      RestatedOnce(m, cur, n - 1, p, k);
      var front, c := RestatedAll(m, cur[..n - 1]), cur[n - 1];
      assert cur[..n][..n - 1] == cur[..n - 1];
      ShapeOf(front);
      LookupStays(m, front, c.name);
      RestatedThere(front, c, k);
      if n - 1 != p { KnownElsewhere(m, c.name, cur[p].name, k); }
    }
  }

  /** The lane of a tick's credit, with the long history set aside. */
  lemma ShortShows(l: Lane, r: Rates)
    requires GoodLane(l)
    ensures CreditLane(l, r).short.Valid()
    ensures CreditLane(l, r).short.Live() == Recent(l.short.Live() + [Sample(r.rxBytes, r.txBytes)], SHORT_LEN)
  {
    hide Entries, Recent;
    PushShows(l.short, Sample(r.rxBytes, r.txBytes));
  }

  lemma MinuteKeepsShort(m: Model, k: nat)
    requires Valid(m) && k < MAX_INTERFACES
    ensures |Minute(m).lanes| == |m.lanes| == MAX_INTERFACES && Minute(m).lanes[k].short == m.lanes[k].short
  {
  }

  /**
   * A counted tick that sees an interface once shows its counters and the rates since the previous sample, raises the
   * peaks to them where they are higher, and appends them to the short history.
   */
  lemma SampleShown(m: Model, cur: seq<Stats>, now: real, p: nat, k: nat)
    requires Valid(m) && |cur| <= MAX_INTERFACES && Counts(m, now)
    requires p < |cur| && OnlyAt(cur, p) && CountsFor(m, cur[p], k)
    ensures var after, c, before := Fast(m, cur, now), cur[p], m.prev[Before(m, cur[p].name)];
      var r := RatesOf(c, before, now - m.prevTime);
      && k < MAX_INTERFACES == |m.ifaces| == |after.ifaces| == |m.lanes| == |after.lanes|
      && after.ifaces[k].stats == c
      && after.ifaces[k].rates == r
      && after.ifaces[k].peakRx == Larger(r.rxBytes, m.ifaces[k].peakRx)
      && after.ifaces[k].peakTx == Larger(r.txBytes, m.ifaces[k].peakTx)
      && m.lanes[k].short.Valid() && after.lanes[k].short.Valid()
      && after.lanes[k].short.Live() == Recent(m.lanes[k].short.Live() + [Sample(r.rxBytes, r.txBytes)], SHORT_LEN)
  {
    hide RatesOf, Names, Known, Before, Recent, Entries, CreditAll, RestatedAll, Minute, GoodLane, CreditLane;
    LanesAreGood(m, k);
    ShapeOf(m);
    var dt := now - m.prevTime;
    CreditedOnce(m, cur, |cur|, p, dt, k, m.ifaces[k], m.lanes[k]);
    assert cur[..|cur|] == cur;
    var credited := CreditAll(m, cur, dt);
    ShortShows(m.lanes[k], RatesOf(cur[p], m.prev[Before(m, cur[p].name)], dt));
    MinuteKeepsShort(credited, k);
    LookupStays(m, Minute(credited), cur[p].name);
    RestatedOnce(Minute(credited), cur, |cur|, p, k);
    LanesAreGood(m, k);
    GoodIsValid(m.lanes[k]);
  }

  lemma LookupStays(m: Model, n: Model, name: bytes)
    requires Valid(m) && Valid(n) && Names(m) == Names(n)
    ensures Known(m, name) == Known(n, name)
  {
    hide IndexOf, Names;
  }

  lemma GoodIsValid(l: Lane)
    requires GoodLane(l)
    ensures l.short.Valid() && l.long.Valid()
  {
  }
}
