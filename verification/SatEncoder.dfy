/** From the JSON status to a snapshot frame, and what the satellite then shows. */
module SatEncoder {
  import opened Bytes
  import opened JsonText
  import opened Ring
  import opened SatProtocol
  import opened SatData

  /** A pointer to an item, or NULL. */
  datatype Item = Missing | Found(value: Json)

  // ---- lookup ----

  /** The names the encoder asks the status document for. */
  datatype Key =
    | Info | Interfaces | Connectivity | Alerts | Wan | UptimeSec | MemTotalKb | MemAvailableKb
    | GatewayReachable | DnsReachable | DnsResolves | GatewayLatencyMs | DnsLatencyMs | WanReachable
    | WanLatencyMs | WanJitterMs | WanPacketLossPct | ActiveCount | Entries | Active | Severity | Name | Up
    | Running | Wireless | SpeedMbps | Rates | RxBps | TxBps | Wifi | SignalDbm

  function Spelling(k: Key): string {
    match k
    case Info => "info"
    case Interfaces => "interfaces"
    case Connectivity => "connectivity"
    case Alerts => "alerts"
    case Wan => "wan"
    case UptimeSec => "uptime_sec"
    case MemTotalKb => "mem_total_kb"
    case MemAvailableKb => "mem_available_kb"
    case GatewayReachable => "gateway_reachable"
    case DnsReachable => "dns_reachable"
    case DnsResolves => "dns_resolves"
    case GatewayLatencyMs => "gateway_latency_ms"
    case DnsLatencyMs => "dns_latency_ms"
    case WanReachable => "wan_reachable"
    case WanLatencyMs => "wan_latency_ms"
    case WanJitterMs => "wan_jitter_ms"
    case WanPacketLossPct => "wan_packet_loss_pct"
    case ActiveCount => "active_count"
    case Entries => "entries"
    case Active => "active"
    case Severity => "severity"
    case Name => "name"
    case Up => "up"
    case Running => "running"
    case Wireless => "wireless"
    case SpeedMbps => "speed_mbps"
    case Rates => "rates"
    case RxBps => "rx_bps"
    case TxBps => "tx_bps"
    case Wifi => "wifi"
    case SignalDbm => "signal_dbm"
  }

  function Lower(b: byte): byte { if 65 <= b <= 90 then b + 32 else b }

  /** `case_insensitive_strcmp` says the names are equal. */
  predicate SameName(k: Key, key: bytes) {
    var text := Spelling(k);
    |text| == |key| && forall i :: 0 <= i < |key| ==> (text[i] < 128 as char && Lower(text[i] as int) == Lower(key[i]))
  }

  predicate IsFirst(members: seq<Member>, name: Key, i: nat)
    requires i < |members|
  {
    SameName(name, members[i].key) && forall j :: 0 <= j < i ==> !SameName(name, members[j].key)
  }

  function FirstNamed(members: seq<Member>, name: Key): (r: Item)
    ensures r.Missing? <==> forall i :: 0 <= i < |members| ==> !SameName(name, members[i].key)
    ensures r.Found? ==> exists i :: 0 <= i < |members| && IsFirst(members, name, i) && members[i].value == r.value
  {
    hide SameName;
    if members == [] then Missing
    else if SameName(name, members[0].key) then
      assert IsFirst(members, name, 0);
      Found(members[0].value)
    else
      var r := FirstNamed(members[1..], name);
      assert forall i :: 0 < i < |members| ==> members[i] == members[1..][i - 1];
      assert forall i :: 0 <= i < |members| - 1 && IsFirst(members[1..], name, i) ==> IsFirst(members, name, i + 1);
      r
  }

  /** `cJSON_GetObjectItem`: items of arrays have no name, so nothing is found in them. */
  function Get(parent: Item, name: Key): Item {
    if parent.Found? && parent.value.Object? then FirstNamed(parent.value.members, name) else Missing
  }

  function Children(item: Item): seq<Json> {
    if item.Found? && item.value.Array? then item.value.items
    else if item.Found? && item.value.Object? then Values(item.value.members)
    else []
  }

  function Values(members: seq<Member>): (r: seq<Json>)
    ensures |r| == |members|
  {
    seq(|members|, i requires 0 <= i < |members| => members[i].value)
  }

  predicate IsTrue(item: Item) { item.Found? && item.value.True? }

  // ---- numbers ----

  /** A C cast from double to an integer type. */
  function Trunc(d: real): int { if d >= 0.0 then d.Floor else -((-d).Floor) }

  function ValueDouble(j: Json): real { if j.Number? then j.d else 0.0 }

  /** The cast of the item's number, times `scale`, is defined: the C standard says nothing about the others. */
  predicate Fits(item: Item, scale: real, lo: int, hi: int) {
    item.Found? ==> lo <= Trunc(ValueDouble(item.value) * scale) <= hi
  }

  function Cast(item: Item, scale: real, lo: int, hi: int, absent: int): (r: int)
    requires Fits(item, scale, lo, hi) && lo <= absent <= hi
    ensures lo <= r <= hi
  {
    if item.Found? then Trunc(ValueDouble(item.value) * scale) else absent
  }

  const MAX8: int := 0xFF
  const MAX16: int := 0xFFFF
  const MAX32: int := 0xFFFF_FFFF

  // ---- the cast of every number the encoder reads is defined ----

  predicate Representable(root: Json) {
    var status := Found(root);
    && InfoFits(Get(status, Info))
    && ConnectivityFits(Get(status, Connectivity))
    && WanFits(Get(status, Wan))
    && AlertsFit(Get(status, Alerts))
    && IfacesFit(Taken(Children(Get(status, Interfaces))))
  }

  predicate InfoFits(info: Item) {
    && Fits(Get(info, UptimeSec), 1.0, 0, MAX32)
    && Fits(Get(info, MemTotalKb), 1.0, 0, MAX32)
    && Fits(Get(info, MemAvailableKb), 1.0, 0, MAX32)
  }

  predicate ConnectivityFits(conn: Item) {
    Fits(Get(conn, GatewayLatencyMs), 10.0, 0, MAX16) && Fits(Get(conn, DnsLatencyMs), 10.0, 0, MAX16)
  }

  predicate WanFits(wan: Item) {
    && Fits(Get(wan, WanLatencyMs), 10.0, 0, MAX16)
    && Fits(Get(wan, WanJitterMs), 10.0, 0, MAX16)
    && Fits(Get(wan, WanPacketLossPct), 1.0, 0, MAX8)
  }

  predicate AlertsFit(alerts: Item) {
    && Fits(Get(alerts, ActiveCount), 1.0, 0, MAX8)
    && SeveritiesFit(Children(Get(alerts, Entries)))
  }

  predicate IfaceFits(iface: Item) {
    && Fits(Get(iface, SpeedMbps), 1.0, 0, MAX16)
    && Fits(Get(Get(iface, Rates), RxBps), 1.0, 0, MAX32)
    && Fits(Get(Get(iface, Rates), TxBps), 1.0, 0, MAX32)
    && Fits(Get(Get(iface, Wifi), SignalDbm), 1.0, -128, 127)
  }

  predicate IfacesFit(ifaces: seq<Json>) {
    forall i :: 0 <= i < |ifaces| ==> IfaceFits(Found(ifaces[i]))
  }

  // ---- the snapshot of a status document ----

  /** At most eight interfaces travel. */
  function Taken(ifaces: seq<Json>): (r: seq<Json>)
    ensures |r| == Min(|ifaces|, MAX_IFACES)
  {
    ifaces[..Min(|ifaces|, MAX_IFACES)]
  }

  /** Memory in use, in percent: the product is a 32-bit one, and the result an 8-bit one. */
  function MemoryPercent(total: uint32, available: uint32): byte {
    if total == 0 then 0 else (100 - available * 100 % 0x1_0000_0000 / total) % 256
  }

  function MemoryUsed(info: Item): byte
    requires InfoFits(info)
  {
    if info.Missing? then 0
    else MemoryPercent(Cast(Get(info, MemTotalKb), 1.0, 0, MAX32, 1), Cast(Get(info, MemAvailableKb), 1.0, 0, MAX32, 0))
  }

  function Flag(b: bool, weight: nat): nat { if b then weight else 0 }

  function ConnFlags(conn: Item, wan: Item): byte {
    Flag(IsTrue(Get(conn, GatewayReachable)), 1) + Flag(IsTrue(Get(conn, DnsReachable)), 2) +
    Flag(IsTrue(Get(conn, DnsResolves)), 4) + Flag(IsTrue(Get(wan, WanReachable)), 8)
  }

  predicate Counts(entry: Json) {
    IsTrue(Get(Found(entry), Active)) && Get(Found(entry), Severity).Found?
  }

  predicate SeverityFits(entry: Json) { Fits(Get(Found(entry), Severity), 1.0, 0, MAX8) }

  function SeverityOf(entry: Json): byte
    requires SeverityFits(entry)
  {
    Cast(Get(Found(entry), Severity), 1.0, 0, MAX8, 0)
  }

  /** Only the severities of active entries are cast. */
  predicate SeveritiesFit(entries: seq<Json>) {
    forall i :: 0 <= i < |entries| && Counts(entries[i]) ==> SeverityFits(entries[i])
  }

  /** The largest severity among active entries, zero when there is none. */
  function WorstSeverity(entries: seq<Json>): byte
    requires SeveritiesFit(entries)
  {
    hide SeverityFits, SeverityOf, Counts;
    if entries == [] then 0 else
    var w, e := WorstSeverity(entries[..|entries| - 1]), entries[|entries| - 1];
    if Counts(e) && SeverityOf(e) > w then SeverityOf(e) else w
  }

  /** No active entry is worse than the result, and a result above zero is that of an active entry. */
  lemma {:induction false} WorstIsWorst(entries: seq<Json>, i: nat) returns (k: nat)
    requires SeveritiesFit(entries) && i < |entries|
    ensures Counts(entries[i]) ==> SeverityOf(entries[i]) <= WorstSeverity(entries)
    ensures k < |entries|
    ensures WorstSeverity(entries) > 0 ==> Counts(entries[k]) && SeverityOf(entries[k]) == WorstSeverity(entries)
    decreases |entries|
  {
    hide SeverityFits, SeverityOf, Counts;
    var m := |entries| - 1;
    k := m;
    var w := WorstSeverity(entries[..m]);
    if m > 0 {
      var j := WorstIsWorst(entries[..m], if i < m then i else 0);
      if !Counts(entries[m]) || SeverityOf(entries[m]) <= w { k := j; }
    }
  }

  function FixedWith(root: Json, now: uint32, worst: byte): Snapshot
    requires Representable(root)
  {
    hide Get, Fits, Cast, Children, Taken, ConnFlags, MemoryUsed;
    var status := Found(root);
    var info, conn, wan, alerts := Get(status, Info), Get(status, Connectivity), Get(status, Wan), Get(status, Alerts);
    Snapshot(now, Cast(Get(info, UptimeSec), 1.0, 0, MAX32, 0), MemoryUsed(info),
      |Taken(Children(Get(status, Interfaces)))|, ConnFlags(conn, wan), Cast(Get(alerts, ActiveCount), 1.0, 0, MAX8, 0),
      worst, Cast(Get(wan, WanPacketLossPct), 1.0, 0, MAX8, 0),
      Cast(Get(conn, GatewayLatencyMs), 10.0, 0, MAX16, 0), Cast(Get(conn, DnsLatencyMs), 10.0, 0, MAX16, 0),
      Cast(Get(wan, WanLatencyMs), 10.0, 0, MAX16, 0), Cast(Get(wan, WanJitterMs), 10.0, 0, MAX16, 0))
  }

  function AlertEntries(root: Json): seq<Json> { Children(Get(Get(Found(root), Alerts), Entries)) }

  function Ifaces(root: Json): (r: seq<Json>)
    ensures |r| <= MAX_IFACES
  {
    Taken(Children(Get(Found(root), Interfaces)))
  }

  function FixedPart(root: Json, now: uint32): Snapshot
    requires Representable(root)
  {
    FixedWith(root, now, WorstSeverity(AlertEntries(root)))
  }

  /** The first seven bytes of a name, padded with zeros to eight. */
  function NameField(item: Item): name8 {
    var s := if item.Found? && item.value.String? then CStr(item.value.s) else [];
    var kept := s[..Min(|s|, NAME_LEN - 1)];
    kept + seq(NAME_LEN - |kept|, _ => 0)
  }

  function IfaceRecord(iface: Item): IfaceData
    requires IfaceFits(iface)
  {
    IfaceData(NameField(Get(iface, Name)),
      Flag(IsTrue(Get(iface, Up)), 1) + Flag(IsTrue(Get(iface, Running)), 2) + Flag(IsTrue(Get(iface, Wireless)), 4),
      0, Cast(Get(Get(iface, Rates), RxBps), 1.0, 0, MAX32, 0), Cast(Get(Get(iface, Rates), TxBps), 1.0, 0, MAX32, 0),
      Cast(Get(iface, SpeedMbps), 1.0, 0, MAX16, 0), Cast(Get(Get(iface, Wifi), SignalDbm), 1.0, -128, 127, 0), 0)
  }

  function IfaceRecords(ifaces: seq<Json>): (r: seq<IfaceData>)
    requires IfacesFit(ifaces)
    ensures |r| == |ifaces|
  {
    seq(|ifaces|, i requires 0 <= i < |ifaces| => IfaceRecord(Found(ifaces[i])))
  }

  function Payload(root: Json, now: uint32): (p: bytes)
    requires Representable(root)
    ensures |p| == SNAPSHOT_SIZE + IFACE_SIZE * |Ifaces(root)| <= SNAPSHOT_REACH
  {
    SnapshotPayload(FixedPart(root, now), IfaceRecords(Ifaces(root)))
  }

  // ---- filling the frame ----

  method MaxSeverity(entries: seq<Json>) returns (worst: byte)
    requires SeveritiesFit(entries)
    ensures worst == WorstSeverity(entries)
  {
    hide SeverityFits, SeverityOf, Counts;
    worst := 0;
    for i := 0 to |entries|
      invariant worst == WorstSeverity(entries[..i])
    {
      assert entries[..i + 1][..i] == entries[..i];
      if Counts(entries[i]) && SeverityOf(entries[i]) > worst {
        worst := SeverityOf(entries[i]);
      }
    }
    assert entries[..|entries|] == entries;
  }

  /** Extends what has been written so far. */
  method Extend(a: array<byte>, at: nat, s: bytes)
    requires at + |s| <= a.Length
    modifies a
    ensures a[..at + |s|] == old(a[..at]) + s
  {
    for i := 0 to |s|
      invariant a[..at + i] == old(a[..at]) + s[..i]
    {
      a[at + i] := s[i];
      assert a[..at + i + 1] == a[..at + i] + [s[i]];
      assert s[..i + 1] == s[..i] + [s[i]];
    }
    assert s[..|s|] == s;
  }

  /** `encoder_json_to_frame` */
  method EncodeStatus(root: Json, now: uint32, buf: array<byte>, seqIn: uint16) returns (total: int, seqOut: uint16)
    requires Representable(root)
    modifies buf
    ensures total == -1 <==> HEADER_SIZE + |Payload(root, now)| + 2 > buf.Length
    ensures total == -1 ==> buf[..] == old(buf[..]) && seqOut == seqIn
    ensures total != -1 ==> seqOut == (seqIn + 1) % 0x1_0000
    ensures total != -1 ==>
      0 <= total <= buf.Length && buf[..total] == Frame(MSG_SNAPSHOT, Payload(root, now), seqIn)
  {
    hide Get, Frame, IfaceBytes, SnapshotBytes, FixedWith, IfaceRecord, Ifaces, AlertEntries, WorstSeverity;
    TheParts(root);
    var payload := new byte[198](_ => 0);
    var worst := MaxSeverity(AlertEntries(root));
    Extend(payload, 0, SnapshotBytes(FixedWith(root, now, worst)));
    var ifaces := Ifaces(root);
    PutIfaces(payload, ifaces);
    var payloadLen := SNAPSHOT_SIZE + IFACE_SIZE * |ifaces|;
    assert payload[..payloadLen] == Payload(root, now);
    total, seqOut := BuildFrame(MSG_SNAPSHOT, payload, payloadLen, buf, seqIn);
  }

  method PutIfaces(payload: array<byte>, ifaces: seq<Json>)
    requires IfacesFit(ifaces) && SNAPSHOT_SIZE + IFACE_SIZE * |ifaces| <= payload.Length
    modifies payload
    ensures payload[..SNAPSHOT_SIZE + IFACE_SIZE * |ifaces|] ==
      old(payload[..SNAPSHOT_SIZE]) + IfacesBytes(IfaceRecords(ifaces))
  {
    hide IfaceBytes, IfaceFits, IfaceRecord;
    ghost var records := IfaceRecords(ifaces);
    for idx := 0 to |ifaces|
      invariant payload[..SNAPSHOT_SIZE + IFACE_SIZE * idx] ==
        old(payload[..SNAPSHOT_SIZE]) + IfacesBytes(records[..idx])
    {
      assert records[..idx + 1][..idx] == records[..idx];
      Extend(payload, SNAPSHOT_SIZE + IFACE_SIZE * idx, IfaceBytes(IfaceRecord(Found(ifaces[idx]))));
    }
    assert records[..|ifaces|] == records;
  }

  lemma TheParts(root: Json)
    requires Representable(root)
    ensures IfacesFit(Ifaces(root)) && SeveritiesFit(AlertEntries(root))
  {
  }

  /** `encoder_heartbeat_frame` */
  method EncodeHeartbeat(now: uint32, buf: array<byte>, seqIn: uint16) returns (total: int, seqOut: uint16)
    modifies buf
    ensures total == -1 <==> HEADER_SIZE + 4 + 2 > buf.Length
    ensures total == -1 ==> buf[..] == old(buf[..]) && seqOut == seqIn
    ensures total != -1 ==> seqOut == (seqIn + 1) % 0x1_0000
    ensures total != -1 ==> 0 <= total <= buf.Length && buf[..total] == Frame(MSG_HEARTBEAT, Bytes32(now), seqIn)
  {
    hide Frame;
    var payload := new byte[4](_ => 0);
    Extend(payload, 0, Bytes32(now));
    assert payload[..4] == Bytes32(now);
    total, seqOut := BuildFrame(MSG_HEARTBEAT, payload, 4, buf, seqIn);
  }

  // ---- what the numbers mean ----

  /**
   * The percentage of memory in use is right exactly as long as a hundred times the free kilobytes fit in 32 bits,
   * that is up to 42949672 kB.
   */
  lemma MemoryPercentExact(total: uint32, available: uint32)
    requires available <= total && total > 0
    ensures MemoryPercent(total, available) == 100 - available * 100 / total <==> available * 100 < 0x1_0000_0000
  {
    var product := available * 100;
    WrapSize(product);
    PercentCases(product, product % 0x1_0000_0000, total);
  }

  lemma WrapSize(p: nat)
    ensures p < 0x1_0000_0000 ==> p % 0x1_0000_0000 == p
    ensures p >= 0x1_0000_0000 ==> p % 0x1_0000_0000 + 0x1_0000_0000 <= p
  {
  }

  lemma PercentCases(p: nat, w: nat, total: nat)
    requires 0 < total && (w == p || w + total <= p) && p <= 100 * total
    ensures (100 - w / total) % 256 == 100 - w / total
    ensures 100 - w / total == 100 - p / total <==> w == p
  {
    QuotientBound(w, total, 100);
    if w != p { QuotientDrops(p, w, total); }
  }

  lemma Quotient(a: nat, d: nat)
    requires 0 < d
    ensures 0 <= a / d * d <= a < a / d * d + d
  {
    assert a == a / d * d + a % d;
  }

  lemma Multiples(x: int, y: int, d: nat)
    ensures x >= y ==> x * d >= y * d
  {
    assert (x - y) * d == x * d - y * d;
  }

  lemma QuotientBound(n: nat, d: nat, q: nat)
    requires 0 < d && n <= q * d
    ensures n / d <= q
  {
    Quotient(n, d);
    Multiples(n / d, q + 1, d);
    assert (q + 1) * d == q * d + d;
  }

  lemma QuotientDrops(a: nat, b: nat, d: nat)
    requires 0 < d && b + d <= a
    ensures b / d < a / d
  {
    Quotient(a, d);
    Quotient(b, d);
    Multiples(b / d, a / d, d);
  }
}
