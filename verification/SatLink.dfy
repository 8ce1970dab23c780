/** From host to display: what any session of status frames and heartbeats makes the satellite show. */
module SatLink {
  import opened Bytes
  import opened JsonText
  import opened Ring
  import opened SatProtocol
  import opened SatReceiver
  import opened SatData
  import opened SatFirmware
  import opened SatEncoder

  /** What the host sends: a snapshot, or a heartbeat when there is no status to send. */
  datatype Message = Status(fixed: Snapshot, ifaces: seq<IfaceData>) | Beat(now: uint32)

  predicate Sendable(m: Message) {
    m.Status? ==> m.fixed.numIfaces == |m.ifaces| <= MAX_IFACES
  }

  function Body(m: Message): (p: bytes)
    requires Sendable(m)
    ensures |p| <= SNAPSHOT_REACH
  {
    match m
    case Status(fixed, ifaces) => SnapshotPayload(fixed, ifaces)
    case Beat(now) => Bytes32(now)
  }

  function FrameOf(m: Message, sequence: uint16): bytes
    requires Sendable(m)
  {
    Frame(if m.Status? then MSG_SNAPSHOT else MSG_HEARTBEAT, Body(m), sequence)
  }

  /** What the message means for the satellite. */
  function Understood(c: Content, m: Message, sequence: uint16): Content {
    var heard := c.(lastSeq := sequence, rxFrames := (c.rxFrames + 1) % 0x1_0000_0000);
    match m
    case Status(fixed, ifaces) =>
      var v := Shows(fixed, ifaces);
      heard.(view := v, history := Recent(c.history + [TotalsOf(v)], HISTORY_LEN))
    case Beat(_) => heard
  }

  lemma {:induction false} RecordsAre(p: bytes, ds: seq<IfaceData>, n: nat)
    requires n <= |ds| && SNAPSHOT_SIZE + IFACE_SIZE * |ds| <= |p|
    requires forall k :: 0 <= k < |ds| ==> IfaceAt(p, k) == ds[k]
    ensures Records(p, n) == ds[..n]
  {
    hide IfaceAt;
    if n > 0 {
      RecordsAre(p, ds, n - 1);
      assert ds[..n] == ds[..n - 1] + [ds[n - 1]];
    }
  }

  /** Bytes left over in the buffer from earlier frames do not show. */
  lemma ShownFromPayload(fixed: Snapshot, ifaces: seq<IfaceData>, rest: bytes)
    requires fixed.numIfaces == |ifaces| <= MAX_IFACES
    requires |SnapshotPayload(fixed, ifaces)| + |rest| >= SNAPSHOT_REACH
    ensures ShownOf(SnapshotPayload(fixed, ifaces) + rest) == Shows(fixed, ifaces)
  {
    hide SnapshotPayload, SnapshotAt, IfaceAt, Shows;
    PayloadBack(fixed, ifaces, rest);
    RecordsAre(SnapshotPayload(fixed, ifaces) + rest, ifaces, |ifaces|);
    assert ifaces[..|ifaces|] == ifaces;
  }

  lemma FrameAbsorbed(c: Content, m: Message, sequence: uint16, buf: bytes)
    requires Sendable(m) && |buf| == MAX_FRAME
    requires |FrameOf(m, sequence)| <= MAX_FRAME && buf[..|FrameOf(m, sequence)|] == FrameOf(m, sequence)
    ensures Absorb(c, buf) == Understood(c, m, sequence)
  {
    hide Frame, HeaderOf, WellFramed, Intact, Shows, ShownOf, Recent, Body;
    var f := FrameOf(m, sequence);
    FrameCarries(if m.Status? then MSG_SNAPSHOT else MSG_HEARTBEAT, Body(m), sequence);
    assert buf[..HEADER_SIZE] == f[..HEADER_SIZE];
    HeaderFromPrefix(buf, f);
    if m.Status? {
      PayloadInBuffer(buf, f);
      BodyIs(m);
      ShownFromPayload(m.fixed, m.ifaces, buf[|f| - 2..]);
    }
  }

  lemma BodyIs(m: Message)
    requires Sendable(m) && m.Status?
    ensures Body(m) == SnapshotPayload(m.fixed, m.ifaces)
  {
  }

  lemma PayloadInBuffer(buf: bytes, f: bytes)
    requires HEADER_SIZE + 2 <= |f| <= |buf| && buf[..|f|] == f
    ensures buf[HEADER_SIZE..] == PayloadOf(f) + buf[|f| - 2..]
  {
    assert PayloadOf(f) == buf[HEADER_SIZE..|f| - 2];
  }

  /** A frame that arrives at a resting receiver is understood. */
  lemma FrameUnderstood(r: Rx, c: Content, m: Message, sequence: uint16)
    requires Resting(r) && Sendable(m)
    ensures var f := FrameOf(m, sequence);
      Resting(Run(r, f)) && AbsorbAll(c, Log(r, f)) == Understood(c, m, sequence)
  {
    hide Frame, HeaderOf, WellFramed, Intact, SatReceiver.Valid, Run, Log, Understood, Body, Absorb, FrameIn;
    var f := FrameOf(m, sequence);
    FrameCarries(if m.Status? then MSG_SNAPSHOT else MSG_HEARTBEAT, Body(m), sequence);
    BlockIsLong(f);
    BlockDelivered(r, f);
    var log := Log(r, f);
    OneBuffer(log, f);
    AbsorbOne(c, log[0]);
    FrameAbsorbed(c, m, sequence, log[0]);
  }

  lemma OneBuffer(log: seq<bytes>, f: bytes)
    requires Buffers(log) && FramesIn(log) == [f] && |f| <= MAX_FRAME
    ensures |log| == 1 && log == [log[0]] && |log[0]| == MAX_FRAME && log[0][..|f|] == f
  {
    hide HeaderOf;
    assert FrameIn(log[0]) == FramesIn(log)[0] == f;
  }

  // ---- whole sessions ----

  /** Everything sent, numbered from `first` on. */
  function Wire(messages: seq<Message>, first: uint16): bytes
    requires forall m <- messages :: Sendable(m)
  {
    if messages == [] then [] else
    var k := |messages| - 1;
    Wire(messages[..k], first) + FrameOf(messages[k], (first + k) % 0x1_0000)
  }

  function UnderstoodAll(c: Content, messages: seq<Message>, first: uint16): Content {
    if messages == [] then c else
    var k := |messages| - 1;
    Understood(UnderstoodAll(c, messages[..k], first), messages[k], (first + k) % 0x1_0000)
  }

  /** Every message of a session is understood once and in order, and the receiver ends where it began: at rest. */
  lemma {:induction false} SessionUnderstood(r: Rx, c: Content, messages: seq<Message>, first: uint16)
    requires Resting(r) && forall m <- messages :: Sendable(m)
    ensures var wire := Wire(messages, first);
      Resting(Run(r, wire)) && AbsorbAll(c, Log(r, wire)) == UnderstoodAll(c, messages, first)
    decreases |messages|
  {
    hide Sendable, FrameOf, SatReceiver.Valid, Run, Log, Understood, AbsorbAll;
    if messages == [] {
      RestIsValid(r);
      RunNothing(r);
      AbsorbNone(c);
    } else {
      var k := |messages| - 1;
      var before, sequence := Wire(messages[..k], first), (first + k) % 0x1_0000;
      SessionUnderstood(r, c, messages[..k], first);
      RestIsValid(r);
      var f := FrameOf(messages[k], sequence);
      RunAppend(r, before, f);
      AbsorbAppend(c, Log(r, before), Log(Run(r, before), f));
      FrameUnderstood(Run(r, before), AbsorbAll(c, Log(r, before)), messages[k], sequence);
    }
  }

  lemma RestIsValid(r: Rx)
    requires Resting(r)
    ensures SatReceiver.Valid(r)
  {
  }

  // ---- in terms of the status document ----

  function StatusOf(root: Json, now: uint32): Message
    requires Representable(root)
  {
    Status(FixedPart(root, now), IfaceRecords(Ifaces(root)))
  }

  /** `encoder_json_to_frame` sends what `StatusOf` says. */
  lemma StatusIsSendable(root: Json, now: uint32, sequence: uint16)
    requires Representable(root)
    ensures Sendable(StatusOf(root, now))
    ensures FrameOf(StatusOf(root, now), sequence) == Frame(MSG_SNAPSHOT, Payload(root, now), sequence)
  {
    hide IfaceRecord, SnapshotPayload, Frame, Get;
  }

  /** Connectivity and interface flags arrive as they were. */
  lemma FlagsShown(conn: Item, wan: Item)
    ensures var f := ConnFlags(conn, wan);
      && Bit(f, 0) == IsTrue(Get(conn, GatewayReachable))
      && Bit(f, 1) == IsTrue(Get(conn, DnsReachable))
      && Bit(f, 2) == IsTrue(Get(conn, DnsResolves))
      && Bit(f, 3) == IsTrue(Get(wan, WanReachable))
  {
    hide Get;
    FourFlags(IsTrue(Get(conn, GatewayReachable)), IsTrue(Get(conn, DnsReachable)), IsTrue(Get(conn, DnsResolves)),
      IsTrue(Get(wan, WanReachable)));
  }

  lemma FourFlags(a: bool, b: bool, c: bool, d: bool)
    ensures var f := Flag(a, 1) + Flag(b, 2) + Flag(c, 4) + Flag(d, 8);
      f <= 15 && Bit(f, 0) == a && Bit(f, 1) == b && Bit(f, 2) == c && Bit(f, 3) == d
  {
  }

  /** A name arrives cut to seven bytes. */
  lemma NameShown(item: Item, s: bytes)
    requires item == Found(String(s)) && 0 !in s
    ensures CStr(NameField(item) + [0]) == s[..Min(|s|, NAME_LEN - 1)]
  {
    CStrOfNulFree(s);
    var kept := s[..Min(|s|, NAME_LEN - 1)];
    var pad: bytes := seq(NAME_LEN - |kept|, _ => 0);
    assert pad[0] == 0 && pad == [0] + pad[1..];
    assert NameField(item) + [0] == kept + [0] + (pad[1..] + [0]);
    CStrOfTerminated(kept, pad[1..] + [0]);
  }

  /** A latency arrives with its first decimal, the rest cut off. */
  lemma LatencyShown(item: Item, d: real)
    requires item == Found(Number(d)) && d >= 0.0 && Fits(item, 10.0, 0, MAX16)
    ensures var shown := Tenths(Cast(item, 10.0, 0, MAX16, 0));
      shown <= d < shown + 0.1
  {
    var t := d * 10.0;
    assert t.Floor as real <= t < t.Floor as real + 1.0;
  }

  /** What the display holds for one interface, told by the status document. */
  lemma IfaceShownAs(iface: Item)
    requires IfaceFits(iface)
    ensures var v := IfaceShown(IfaceRecord(iface));
      && v.up == IsTrue(Get(iface, Up))
      && v.running == IsTrue(Get(iface, Running))
      && v.wireless == IsTrue(Get(iface, Wireless))
      && v.rxRate == Cast(Get(Get(iface, Rates), RxBps), 1.0, 0, MAX32, 0)
      && v.txRate == Cast(Get(Get(iface, Rates), TxBps), 1.0, 0, MAX32, 0)
      && v.linkSpeed == Cast(Get(iface, SpeedMbps), 1.0, 0, MAX16, 0)
      && v.signal == Cast(Get(Get(iface, Wifi), SignalDbm), 1.0, -128, 127, 0)
      && v.name == NameField(Get(iface, Name)) + [0]
  {
    hide Get, Cast, Fits, NameField, IsTrue, Flag, Bit;
    FourFlags(IsTrue(Get(iface, Up)), IsTrue(Get(iface, Running)), IsTrue(Get(iface, Wireless)), false);
    NoFlag();
  }

  lemma NoFlag()
    ensures Flag(false, 8) == 0
  {
  }

  /** One status, from document to display. */
  lemma StatusArrives(r: Rx, c: Content, root: Json, now: uint32, sequence: uint16)
    requires Resting(r) && Representable(root)
    ensures var f := Frame(MSG_SNAPSHOT, Payload(root, now), sequence);
      var after := AbsorbAll(c, Log(r, f));
      var status := Found(root);
      && Resting(Run(r, f))
      && after.lastSeq == sequence
      && after.view.fixed.timestamp == now
      && after.view.fixed.gwUp == IsTrue(Get(Get(status, Connectivity), GatewayReachable))
      && after.view.fixed.dnsUp == IsTrue(Get(Get(status, Connectivity), DnsReachable))
      && after.view.fixed.dnsResolves == IsTrue(Get(Get(status, Connectivity), DnsResolves))
      && after.view.fixed.wanUp == IsTrue(Get(Get(status, Wan), WanReachable))
      && after.view.fixed.maxSeverity == WorstSeverity(AlertEntries(root))
      && |after.view.ifaces| == |Ifaces(root)|
      && forall i :: 0 <= i < |Ifaces(root)| ==> after.view.ifaces[i] == IfaceShown(IfaceRecord(Found(Ifaces(root)[i])))
  {
    hide Get, Frame, Payload, WorstSeverity, IsTrue, IfaceShown, IfaceRecord, AlertEntries, Run, Log, SatReceiver.Valid,
      AbsorbAll, ConnFlags, Bit, Ifaces;
    StatusIsSendable(root, now, sequence);
    FrameUnderstood(r, c, StatusOf(root, now), sequence);
    FlagsShown(Get(Found(root), Connectivity), Get(Found(root), Wan));
  }

  /** Its numbers, as the display holds them. */
  lemma StatusNumbersArrive(r: Rx, c: Content, root: Json, now: uint32, sequence: uint16)
    requires Resting(r) && Representable(root)
    ensures var after := AbsorbAll(c, Log(r, Frame(MSG_SNAPSHOT, Payload(root, now), sequence)));
      var status := Found(root);
      var info, conn, wan, alerts := Get(status, Info), Get(status, Connectivity), Get(status, Wan),
        Get(status, Alerts);
      && after.view.fixed.uptime == Cast(Get(info, UptimeSec), 1.0, 0, MAX32, 0)
      && after.view.fixed.memUsed == MemoryUsed(info)
      && after.view.fixed.gwLatency == Tenths(Cast(Get(conn, GatewayLatencyMs), 10.0, 0, MAX16, 0))
      && after.view.fixed.dnsLatency == Tenths(Cast(Get(conn, DnsLatencyMs), 10.0, 0, MAX16, 0))
      && after.view.fixed.wanLatency == Tenths(Cast(Get(wan, WanLatencyMs), 10.0, 0, MAX16, 0))
      && after.view.fixed.wanJitter == Tenths(Cast(Get(wan, WanJitterMs), 10.0, 0, MAX16, 0))
      && after.view.fixed.wanLoss == Cast(Get(wan, WanPacketLossPct), 1.0, 0, MAX8, 0)
      && after.view.fixed.activeAlerts == Cast(Get(alerts, ActiveCount), 1.0, 0, MAX8, 0)
  {
    hide Get, Frame, Payload, WorstSeverity, IfaceShown, IfaceRecord, AlertEntries, Run, Log, SatReceiver.Valid,
      AbsorbAll, ConnFlags, Bit, Ifaces, Cast, Fits, Tenths, MemoryUsed;
    StatusIsSendable(root, now, sequence);
    FrameUnderstood(r, c, StatusOf(root, now), sequence);
  }
}
