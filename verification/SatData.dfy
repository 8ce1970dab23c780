/** The packed snapshot layout and the satellite's local data model. */
module SatData {
  import opened Bytes
  import opened SatProtocol
  import opened Ring

  const SNAPSHOT_SIZE: nat := 22
  const IFACE_SIZE: nat := 22
  const MAX_IFACES: nat := 8
  const NAME_LEN: nat := 8
  const HISTORY_LEN: nat := 60
  const CONNECTION_TIMEOUT_MS := 5000
  const DEFAULT_LINK_BPS: uint32 := 100000000

  type int8 = x: int | -128 <= x < 128
  type name8 = s: bytes | |s| == NAME_LEN witness [0, 0, 0, 0, 0, 0, 0, 0]

  // ---- layout ----

  datatype Snapshot = Snapshot(
    timestamp: uint32, uptime: uint32, memUsed: byte, numIfaces: byte, connFlags: byte, activeAlerts: byte,
    maxSeverity: byte, wanLoss: byte, gwLatency: uint16, dnsLatency: uint16, wanLatency: uint16, wanJitter: uint16)

  datatype IfaceData = IfaceData(
    name: name8, flags: byte, errorRate: byte, rxRate: uint32, txRate: uint32, linkSpeed: uint16, signal: int8,
    reserved: byte)

  function SnapshotBytes(s: Snapshot): (r: bytes)
    ensures |r| == SNAPSHOT_SIZE
  {
    var t, u := Bytes32(s.timestamp), Bytes32(s.uptime);
    var g, d, w, j := Bytes16(s.gwLatency), Bytes16(s.dnsLatency), Bytes16(s.wanLatency), Bytes16(s.wanJitter);
    [t[0], t[1], t[2], t[3], u[0], u[1], u[2], u[3],
     s.memUsed, s.numIfaces, s.connFlags, s.activeAlerts, s.maxSeverity, s.wanLoss,
     g[0], g[1], d[0], d[1], w[0], w[1], j[0], j[1]]
  }

  function SnapshotAt(p: bytes): Snapshot
    requires |p| >= SNAPSHOT_SIZE
  {
    Snapshot(Le32(p[0], p[1], p[2], p[3]), Le32(p[4], p[5], p[6], p[7]), p[8], p[9], p[10], p[11], p[12], p[13],
      Le16(p[14], p[15]), Le16(p[16], p[17]), Le16(p[18], p[19]), Le16(p[20], p[21]))
  }

  function SignalByte(signal: int8): byte { signal % 256 }
  function SignalOf(b: byte): int8 { if b < 128 then b else b - 256 }

  function IfaceBytes(i: IfaceData): (r: bytes)
    ensures |r| == IFACE_SIZE
  {
    var x, t, l := Bytes32(i.rxRate), Bytes32(i.txRate), Bytes16(i.linkSpeed);
    i.name + [i.flags, i.errorRate, x[0], x[1], x[2], x[3], t[0], t[1], t[2], t[3], l[0], l[1],
              SignalByte(i.signal), i.reserved]
  }

  /** The interface record at the front of `p`. */
  function IfaceOf(p: bytes): IfaceData
    requires |p| == IFACE_SIZE
  {
    IfaceData(p[..8], p[8], p[9], Le32(p[10], p[11], p[12], p[13]), Le32(p[14], p[15], p[16], p[17]),
      Le16(p[18], p[19]), SignalOf(p[20]), p[21])
  }

  function IfaceAt(p: bytes, k: nat): IfaceData
    requires SNAPSHOT_SIZE + IFACE_SIZE * (k + 1) <= |p|
  {
    IfaceOf(p[SNAPSHOT_SIZE + IFACE_SIZE * k..SNAPSHOT_SIZE + IFACE_SIZE * k + IFACE_SIZE])
  }

  lemma SnapshotBack(s: Snapshot, rest: bytes)
    ensures SnapshotAt(SnapshotBytes(s) + rest) == s
  {
    hide Bytes16, Bytes32, Le16, Le32;
    var p := SnapshotBytes(s);
    assert SnapshotAt(p) == s;
    assert forall i :: 0 <= i < SNAPSHOT_SIZE ==> (p + rest)[i] == p[i];
  }

  lemma IfaceBack(i: IfaceData)
    ensures IfaceOf(IfaceBytes(i)) == i
  {
    hide Bytes16, Bytes32, Le16, Le32;
    assert IfaceBytes(i)[..8] == i.name;
  }

  function IfacesBytes(ifaces: seq<IfaceData>): (r: bytes)
    ensures |r| == IFACE_SIZE * |ifaces|
  {
    if ifaces == [] then [] else IfacesBytes(ifaces[..|ifaces| - 1]) + IfaceBytes(ifaces[|ifaces| - 1])
  }

  lemma {:induction false} IfaceInside(ifaces: seq<IfaceData>, k: nat)
    requires k < |ifaces|
    ensures IfacesBytes(ifaces)[IFACE_SIZE * k..IFACE_SIZE * k + IFACE_SIZE] == IfaceBytes(ifaces[k])
    decreases |ifaces|
  {
    hide IfaceBytes;
    var m := |ifaces| - 1;
    var front := IfacesBytes(ifaces[..m]);
    assert IfacesBytes(ifaces) == front + IfaceBytes(ifaces[m]);
    if k < m {
      IfaceInside(ifaces[..m], k);
      var a := IFACE_SIZE * k;
      assert (front + IfaceBytes(ifaces[m]))[a..a + IFACE_SIZE] == front[a..a + IFACE_SIZE];
    }
  }

  /** A snapshot payload: the fixed part and one record per interface. */
  function SnapshotPayload(s: Snapshot, ifaces: seq<IfaceData>): (r: bytes)
    ensures |r| == SNAPSHOT_SIZE + IFACE_SIZE * |ifaces|
  {
    SnapshotBytes(s) + IfacesBytes(ifaces)
  }

  /** Every field written into a payload is found again, whatever follows it in the buffer. */
  lemma PayloadBack(s: Snapshot, ifaces: seq<IfaceData>, rest: bytes)
    ensures var p := SnapshotPayload(s, ifaces) + rest;
      SnapshotAt(p) == s && forall k :: 0 <= k < |ifaces| ==> IfaceAt(p, k) == ifaces[k]
  {
    hide SnapshotAt, SnapshotBytes, IfaceOf, IfaceBytes, IfacesBytes;
    var p := SnapshotPayload(s, ifaces) + rest;
    assert p == SnapshotBytes(s) + (IfacesBytes(ifaces) + rest);
    SnapshotBack(s, IfacesBytes(ifaces) + rest);
    forall k | 0 <= k < |ifaces| ensures IfaceAt(p, k) == ifaces[k] {
      IfaceInside(ifaces, k);
      IfaceBack(ifaces[k]);
      var a := IFACE_SIZE * k;
      assert a + IFACE_SIZE <= |IfacesBytes(ifaces)|;
      assert p[SNAPSHOT_SIZE + a..SNAPSHOT_SIZE + a + IFACE_SIZE] == IfacesBytes(ifaces)[a..a + IFACE_SIZE];
    }
  }

  // ---- what the display shows ----

  datatype Iface = Iface(
    name: bytes, up: bool, running: bool, wireless: bool, rxRate: uint32, txRate: uint32, linkSpeed: uint16,
    signal: int8, errorRate: byte)

  /** The fields copied one for one from the fixed part of a snapshot. */
  datatype Fixed = Fixed(
    timestamp: uint32, uptime: uint32, memUsed: byte, gwUp: bool, dnsUp: bool, dnsResolves: bool, wanUp: bool,
    gwLatency: real, dnsLatency: real, wanLatency: real, wanJitter: real, wanLoss: byte, activeAlerts: byte,
    maxSeverity: byte)

  datatype Shown = Shown(
    fixed: Fixed, ifaces: seq<Iface>, totalRx: uint32, totalTx: uint32, maxLinkBps: uint32)

  predicate Bit(flags: byte, k: nat)
    requires k < 4
  {
    (if k == 0 then flags else if k == 1 then flags / 2 else if k == 2 then flags / 4 else flags / 8) % 2 == 1
  }

  function IfaceShown(d: IfaceData): Iface {
    Iface(d.name + [0], Bit(d.flags, 0), Bit(d.flags, 1), Bit(d.flags, 2), d.rxRate, d.txRate, d.linkSpeed, d.signal,
      d.errorRate)
  }

  /** Latencies travel as tenths of a millisecond. */
  function Tenths(n: uint16): real { n as real / 10.0 }

  function LinkBps(d: IfaceData): uint32 { d.linkSpeed * 1000000 % 0x1_0000_0000 }

  function SumRx(ds: seq<IfaceData>): nat {
    if ds == [] then 0 else SumRx(ds[..|ds| - 1]) + ds[|ds| - 1].rxRate
  }

  function SumTx(ds: seq<IfaceData>): nat {
    if ds == [] then 0 else SumTx(ds[..|ds| - 1]) + ds[|ds| - 1].txRate
  }

  function MaxLink(ds: seq<IfaceData>): uint32 {
    if ds == [] then 0 else
    var m, l := MaxLink(ds[..|ds| - 1]), LinkBps(ds[|ds| - 1]);
    if l > m then l else m
  }

  /** The first `n` interface records of a snapshot. */
  function Records(p: bytes, n: nat): (r: seq<IfaceData>)
    requires SNAPSHOT_SIZE + IFACE_SIZE * n <= |p|
    ensures |r| == n
  {
    if n == 0 then [] else Records(p, n - 1) + [IfaceAt(p, n - 1)]
  }

  function IfacesShown(ds: seq<IfaceData>): (r: seq<Iface>)
    ensures |r| == |ds|
  {
    seq(|ds|, i requires 0 <= i < |ds| => IfaceShown(ds[i]))
  }

  function FixedShown(s: Snapshot): Fixed {
    Fixed(s.timestamp, s.uptime, s.memUsed, Bit(s.connFlags, 0), Bit(s.connFlags, 1), Bit(s.connFlags, 2),
      Bit(s.connFlags, 3), Tenths(s.gwLatency), Tenths(s.dnsLatency), Tenths(s.wanLatency), Tenths(s.wanJitter),
      s.wanLoss, s.activeAlerts, s.maxSeverity)
  }

  function Shows(s: Snapshot, ds: seq<IfaceData>): Shown {
    Shown(FixedShown(s), IfacesShown(ds), SumRx(ds) % 0x1_0000_0000, SumTx(ds) % 0x1_0000_0000,
      if MaxLink(ds) > 0 then MaxLink(ds) else DEFAULT_LINK_BPS)
  }

  const SNAPSHOT_REACH: nat := 198

  /** What a snapshot at the front of `p` makes the display show. */
  function ShownOf(p: bytes): Shown
    requires |p| >= SNAPSHOT_REACH
  {
    Shows(SnapshotAt(p), Records(p, Min(SnapshotAt(p).numIfaces, MAX_IFACES)))
  }

  /** Zeroed storage. */
  const NOTHING_SHOWN: Shown :=
    Shown(Fixed(0, 0, 0, false, false, false, false, 0.0, 0.0, 0.0, 0.0, 0, 0, 0), [], 0, 0, 0)

  datatype Totals = Totals(rx: uint32, tx: uint32)

  /** `s_data`, updated in place. */
  class DataModel {
    var fixed: Fixed
    var numIfaces: nat
    const ifaces: array<Iface>
    var totalRx: uint32
    var totalTx: uint32
    var maxLinkBps: uint32
    const history: array<Totals>
    var historyHead: nat
    var historyCount: nat
    var connected: bool
    var lastRxTime: uint32
    var lastSeq: uint16
    var rxFrames: uint32

    ghost predicate Valid()
      reads this
    {
      && ifaces.Length == MAX_IFACES
      && numIfaces <= MAX_IFACES
      && history.Length == HISTORY_LEN
      && historyHead < HISTORY_LEN
      && historyCount <= HISTORY_LEN
    }

    ghost function View(): Shown
      requires Valid()
      reads this, ifaces
    {
      Shown(fixed, ifaces[..numIfaces], totalRx, totalTx, maxLinkBps)
    }

    /** The aggregate rates in the ring, oldest first. */
    ghost function History(): seq<Totals>
      requires Valid()
      reads this, history
    {
      Entries(history[..], historyHead, historyCount)
    }

    /** Static storage: everything starts as zero. */
    constructor ()
      ensures Valid() && fresh(ifaces) && fresh(history)
      ensures View() == NOTHING_SHOWN && History() == []
      ensures !connected && lastRxTime == 0 && lastSeq == 0 && rxFrames == 0
    {
      fixed := NOTHING_SHOWN.fixed;
      numIfaces, totalRx, totalTx, maxLinkBps := 0, 0, 0, 0;
      ifaces := new Iface[MAX_IFACES](_ => Iface(seq(NAME_LEN + 1, _ => 0), false, false, false, 0, 0, 0, 0, 0));
      history := new Totals[HISTORY_LEN](_ => Totals(0, 0));
      historyHead, historyCount := 0, 0;
      connected, lastRxTime, lastSeq, rxFrames := false, 0, 0, 0;
    }

    /** `sat_data_update_snapshot`. */
    method UpdateSnapshot(snap: bytes)
      requires Valid() && |snap| >= SNAPSHOT_REACH
      modifies this, ifaces, history
      ensures Valid()
      ensures View() == ShownOf(snap)
      ensures History() == Recent(old(History()) + [Totals(totalRx, totalTx)], HISTORY_LEN)
      ensures connected == old(connected) && lastRxTime == old(lastRxTime)
      ensures lastSeq == old(lastSeq) && rxFrames == old(rxFrames)
    {
      hide FixedShown, SnapshotAt, Records, SumRx, SumTx, MaxLink, IfacesShown, Recent;
      fixed := FixedShown(SnapshotAt(snap));
      CopyIfaces(snap, Min(SnapshotAt(snap).numIfaces, MAX_IFACES));
      Push(Totals(totalRx, totalTx));
    }

    method CopyIfaces(snap: bytes, n: nat)
      requires Valid() && n <= MAX_IFACES && |snap| >= SNAPSHOT_REACH
      modifies `numIfaces, `totalRx, `totalTx, `maxLinkBps, ifaces
      ensures Valid() && numIfaces == n
      ensures var ds := Records(snap, n);
        ifaces[..n] == IfacesShown(ds) && totalRx == SumRx(ds) % 0x1_0000_0000 &&
        totalTx == SumTx(ds) % 0x1_0000_0000 && maxLinkBps == if MaxLink(ds) > 0 then MaxLink(ds) else DEFAULT_LINK_BPS
    {
      hide IfaceShown, IfaceAt, LinkBps, Records, SumRx, SumTx, MaxLink, IfacesShown;
      NoRecords(snap);
      numIfaces := n;
      var rx: uint32, tx: uint32, link: uint32 := 0, 0, 0;
      for i := 0 to n
        invariant Valid() && numIfaces == n
        invariant ifaces[..i] == IfacesShown(Records(snap, i))
        invariant rx == SumRx(Records(snap, i)) % 0x1_0000_0000
        invariant tx == SumTx(Records(snap, i)) % 0x1_0000_0000
        invariant link == MaxLink(Records(snap, i))
      {
        var d := IfaceAt(snap, i);
        ifaces[i] := IfaceShown(d);
        assert ifaces[..i + 1] == ifaces[..i] + [IfaceShown(d)];
        rx := (rx + d.rxRate) % 0x1_0000_0000;
        tx := (tx + d.txRate) % 0x1_0000_0000;
        var bps := LinkBps(d);
        if bps > link { link := bps; }
        RecordSums(snap, i);
        AddWrapped(SumRx(Records(snap, i)), d.rxRate);
        AddWrapped(SumTx(Records(snap, i)), d.txRate);
      }
      totalRx, totalTx := rx, tx;
      maxLinkBps := if link > 0 then link else DEFAULT_LINK_BPS;
    }

    method Push(t: Totals)
      requires Valid()
      modifies `historyHead, `historyCount, history
      ensures Valid()
      ensures History() == Recent(old(History()) + [t], HISTORY_LEN)
    {
      hide Entries, Recent;
      PushAppends(history[..], historyHead, historyCount, t);
      NextIsModulo(historyHead, HISTORY_LEN);
      history[historyHead] := t;
      historyHead := (historyHead + 1) % HISTORY_LEN;
      if historyCount < HISTORY_LEN { historyCount := historyCount + 1; }
    }

    /** `sat_data_mark_alive`. */
    method MarkAlive(now: uint32, sequence: uint16)
      modifies `connected, `lastRxTime, `lastSeq, `rxFrames
      ensures connected && lastRxTime == now && lastSeq == sequence
      ensures rxFrames == (old(rxFrames) + 1) % 0x1_0000_0000
    {
      connected, lastRxTime, lastSeq := true, now, sequence;
      rxFrames := (rxFrames + 1) % 0x1_0000_0000;
    }

    /** `sat_data_check_connection`: the age of the last frame is taken modulo 2^32. */
    method CheckConnection(now: uint32)
      modifies `connected
      ensures connected == (old(connected) && (now - lastRxTime) % 0x1_0000_0000 <= CONNECTION_TIMEOUT_MS)
    {
      if connected && (now - lastRxTime) % 0x1_0000_0000 > CONNECTION_TIMEOUT_MS {
        connected := false;
      }
    }
  }

  lemma NoRecords(p: bytes)
    requires |p| >= SNAPSHOT_REACH
    ensures var ds := Records(p, 0); SumRx(ds) == SumTx(ds) == MaxLink(ds) == 0 && IfacesShown(ds) == []
  {
  }

  lemma AddWrapped(a: nat, b: nat)
    ensures (a % 0x1_0000_0000 + b) % 0x1_0000_0000 == (a + b) % 0x1_0000_0000
  {
  }

  lemma RecordSums(p: bytes, i: nat)
    requires SNAPSHOT_SIZE + IFACE_SIZE * (i + 1) <= |p|
    ensures var ds, more, d := Records(p, i), Records(p, i + 1), IfaceAt(p, i);
      SumRx(more) == SumRx(ds) + d.rxRate && SumTx(more) == SumTx(ds) + d.txRate &&
      MaxLink(more) == (if LinkBps(d) > MaxLink(ds) then LinkBps(d) else MaxLink(ds)) &&
      IfacesShown(more) == IfacesShown(ds) + [IfaceShown(d)]
  {
    hide IfaceAt, LinkBps, IfaceShown;
    assert Records(p, i + 1)[..i] == Records(p, i);
  }

  /** The clock is 32 bits wide, but as long as two readings are less than 2^32 ms apart wrapping does no harm. */
  lemma TimeoutIgnoresWrap(heard: nat, now: nat)
    requires heard <= now < heard + 0x1_0000_0000
    ensures (now % 0x1_0000_0000 - heard % 0x1_0000_0000) % 0x1_0000_0000 == now - heard
  {
    var h, n := heard / 0x1_0000_0000, now / 0x1_0000_0000;
    assert n == h || n == h + 1;
  }

  /** The fastest of the links, in Mb/s; 0 when there is none. */
  function TopSpeed(ds: seq<IfaceData>): (top: uint16)
    ensures forall i :: 0 <= i < |ds| ==> ds[i].linkSpeed <= top
    ensures top > 0 ==> exists i :: 0 <= i < |ds| && ds[i].linkSpeed == top
  {
    if ds == [] then 0 else
    var m, l := TopSpeed(ds[..|ds| - 1]), ds[|ds| - 1].linkSpeed;
    assert forall i :: 0 <= i < |ds| - 1 ==> ds[i] == ds[..|ds| - 1][i];
    if l > m then l else m
  }

  const EXACT_MBPS: nat := 4294

  predicate NoneTooFast(ds: seq<IfaceData>) { forall i :: 0 <= i < |ds| ==> ds[i].linkSpeed <= EXACT_MBPS }

  /** As long as no product wraps, the largest product is that of the fastest link. */
  lemma {:induction false} MaxLinkOfTop(ds: seq<IfaceData>)
    requires NoneTooFast(ds)
    ensures MaxLink(ds) == 1000000 * TopSpeed(ds)
    decreases |ds|
  {
    if ds != [] {
      var front, d := ds[..|ds| - 1], ds[|ds| - 1];
      MaxLinkOfTop(front);
      assert d.linkSpeed <= EXACT_MBPS;
    }
  }

  /**
   * The scale of the gauges, which is the largest of products taken in 32 bits, or 100 Mb/s when that is 0: it is the
   * speed of the fastest link exactly when no link is faster than 4294 Mb/s and one has a speed at all.
   */
  lemma LinkScaleExact(s: Snapshot, ds: seq<IfaceData>)
    ensures Shows(s, ds).maxLinkBps == 1000000 * TopSpeed(ds) <==>
      NoneTooFast(ds) && exists i :: 0 <= i < |ds| && ds[i].linkSpeed > 0
  {
    hide FixedShown, MaxLink, TopSpeed;
    if NoneTooFast(ds) {
      MaxLinkOfTop(ds);
      if exists i :: 0 <= i < |ds| && ds[i].linkSpeed > 0 {
        assert TopSpeed(ds) > 0;
      }
    } else {
      assert TopSpeed(ds) > EXACT_MBPS;
    }
  }
}
