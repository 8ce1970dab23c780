/** The Internet checksum (RFC 1071) as computed for ICMP echo requests (RFC 792). */
module PacketChecksum {
  import opened Bytes

  function Word(lo: byte, hi: byte): uint16 { lo + 256 * hi }

  /** The 16-bit word at `i`, as a little-endian machine loads it; a last odd byte stands alone. */
  function WordAt(data: bytes, i: nat): uint16
    requires i < |data|
  {
    if i + 1 < |data| then Word(data[i], data[i + 1]) else data[i]
  }

  /** The sum of the words from offset `i` on, without any limit. */
  function Sum(data: bytes, i: nat): nat
    decreases |data| - i
  {
    if i >= |data| then 0 else WordAt(data, i) + Sum(data, i + 2)
  }

  /** One round of adding the carries back. */
  function Round(sum: nat): nat { sum % 0x1_0000 + sum / 0x1_0000 }

  /** One round and the carry of a second, as in `net_ping.c`. */
  function TwoStepFold(sum: uint32): uint16 {
    (Round(sum) + Round(sum) / 0x1_0000) % 0x1_0000
  }

  /** Adding the carries back until none is left, as in `net_discovery.c`. */
  function LoopFold(sum: nat): uint16
    decreases sum
  {
    if sum < 0x1_0000 then sum else
    RoundShrinks(sum);
    LoopFold(Round(sum))
  }

  lemma RoundShrinks(sum: nat)
    ensures sum == Round(sum) + 0xFFFF * (sum / 0x1_0000)
    ensures sum >= 0x1_0000 ==> Round(sum) < sum
    ensures sum > 0 ==> Round(sum) > 0
    ensures sum < 0x1_0000_0000 ==> Round(sum) <= 0x1_FFFE
    ensures sum < 0x1_0000 ==> Round(sum) == sum
  {
  }

  /** One's complement arithmetic is arithmetic modulo 65535, with zero reached only from zero. */
  lemma {:induction false} LoopFoldIsModular(sum: nat)
    ensures sum == 0 ==> LoopFold(sum) == 0
    ensures sum > 0 ==> LoopFold(sum) == (sum - 1) % 0xFFFF + 1
    decreases sum
  {
    RoundShrinks(sum);
    if sum >= 0x1_0000 {
      LoopFoldIsModular(Round(sum));
      ModularShift(Round(sum) - 1, sum / 0x1_0000);
    }
  }

  lemma {:induction false} ModularShift(a: nat, k: nat)
    ensures (a + 0xFFFF * k) % 0xFFFF == a % 0xFFFF
  {
    if k > 0 { ModularShift(a, k - 1); }
  }

  /** The fixed two rounds are enough for every 32-bit sum. */
  lemma FoldsAgree(sum: uint32)
    ensures TwoStepFold(sum) == LoopFold(sum)
  {
    hide LoopFold, Round;
    RoundShrinks(sum);
    LoopRound(sum);
    LoopRound(Round(sum));
    SecondRound(Round(sum));
    LoopRound(Round(Round(sum)));
  }

  lemma SecondRound(once: nat)
    requires once <= 0x1_FFFE
    ensures Round(once) == (once + once / 0x1_0000) % 0x1_0000
  {
  }

  lemma LoopRound(sum: nat)
    ensures LoopFold(sum) == if sum < 0x1_0000 then sum else LoopFold(Round(sum))
  {
  }

  /** The checksum of `data`: the complement of the folded 32-bit sum. */
  function Checksum(data: bytes): uint16 {
    0xFFFF - LoopFold(Sum(data, 0) % 0x1_0000_0000)
  }

  /** `icmp_checksum` */
  method IcmpChecksum(data: array<byte>, length: nat) returns (c: uint16)
    requires length <= data.Length
    ensures c == Checksum(data[..length])
  {
    hide LoopFold;
    var sum := AddWords(data, length);
    FoldsAgree(sum);
    sum := Round(sum);
    sum := sum + sum / 0x1_0000;
    c := 0xFFFF - sum % 0x1_0000;
  }

  /** The loop of `icmp_checksum`, and the odd byte after it. */
  method AddWords(data: array<byte>, length: nat) returns (sum: uint32)
    requires length <= data.Length
    ensures sum == Sum(data[..length], 0) % 0x1_0000_0000
  {
    hide Sum, WordAt, Word;
    ghost var all := data[..length];
    var p, len := 0, length;
    sum := 0;
    while len > 1
      invariant p + len == length && len >= 0
      invariant (sum + Sum(all, p)) % 0x1_0000_0000 == Sum(all, 0) % 0x1_0000_0000
    {
      WordAdded(all, p, sum);
      sum := (sum + Word(data[p], data[p + 1])) % 0x1_0000_0000;
      p, len := p + 2, len - 2;
    }
    SumStep(all, p);
    if len == 1 {
      sum := (sum + data[p]) % 0x1_0000_0000;
    }
  }

  lemma WordAdded(data: bytes, p: nat, sum: nat)
    requires p + 1 < |data|
    ensures var w := Word(data[p], data[p + 1]);
      ((sum + w) % 0x1_0000_0000 + Sum(data, p + 2)) % 0x1_0000_0000 == (sum + Sum(data, p)) % 0x1_0000_0000
  {
    hide Sum, Word;
    SumStep(data, p);
    WrapOnce(sum + Word(data[p], data[p + 1]), Sum(data, p + 2));
  }

  lemma SumStep(data: bytes, p: nat)
    ensures p + 1 < |data| ==> Sum(data, p) == Word(data[p], data[p + 1]) + Sum(data, p + 2)
    ensures p + 1 == |data| ==> Sum(data, p) == data[p]
    ensures p >= |data| ==> Sum(data, p) == 0
  {
  }

  lemma WrapOnce(a: nat, b: nat)
    ensures (a % 0x1_0000_0000 + b) % 0x1_0000_0000 == (a + b) % 0x1_0000_0000
  {
  }

  /** The checksum loop inlined in `probe_ttl`, over its packet of 16 bytes. */
  method ProbeChecksum(data: array<byte>) returns (c: uint16)
    requires data.Length == 16
    ensures c == Checksum(data[..])
  {
    hide Sum, WordAt, LoopFold;
    ghost var all := data[..];
    var sum: nat := 0;
    SumBound(all, 0);
    for i := 0 to data.Length / 2
      invariant sum + Sum(all, 2 * i) == Sum(all, 0)
    {
      SumStep(all, 2 * i);
      sum := sum + Word(data[2 * i], data[2 * i + 1]);
    }
    SumStep(all, 16);
    ghost var total := sum;
    while sum >= 0x1_0000
      invariant LoopFold(sum) == LoopFold(total)
      decreases sum
    {
      LoopRound(sum);
      RoundShrinks(sum);
      sum := Round(sum);
    }
    LoopRound(sum);
    c := 0xFFFF - sum;
  }

  lemma {:induction false} SumBound(data: bytes, i: nat)
    requires i <= |data| + 1
    ensures Sum(data, i) <= 0xFFFF * ((|data| + 1 - i) / 2)
    decreases |data| - i
  {
    if i < |data| {
      SumBound(data, i + 2);
      assert (|data| + 1 - i) / 2 == (|data| + 1 - (i + 2)) / 2 + 1;
    }
  }

  // ---- storing and checking ----

  /** `data` with `c` stored at `field`, low byte first. */
  function Stored(data: bytes, field: nat, c: uint16): bytes
    requires field + 2 <= |data|
  {
    data[field := c % 256][field + 1 := c / 256]
  }

  lemma {:induction false} SumOfStored(data: bytes, field: nat, c: uint16, i: nat)
    requires field + 2 <= |data| && field % 2 == 0 && i % 2 == 0 && data[field] == data[field + 1] == 0
    ensures Sum(Stored(data, field, c), i) == Sum(data, i) + if i <= field then c else 0
    decreases |data| - i
  {
    if i < |data| {
      SumOfStored(data, field, c, i + 2);
      assert c % 256 + 256 * (c / 256) == c;
    }
  }

  /** A sum that the checksum completes to a multiple of 65535 is one that checks out. */
  lemma CompletedSum(s: nat)
    ensures LoopFold(s + 0xFFFF - LoopFold(s)) == 0xFFFF
  {
    LoopFoldIsModular(s);
    var t := s + 0xFFFF - LoopFold(s);
    LoopFoldIsModular(t);
    if s > 0 {
      var q := (s - 1) / 0xFFFF;
      assert s - 1 == 0xFFFF * q + (s - 1) % 0xFFFF;
      assert t - 1 == 0xFFFF * q + 0xFFFE;
      ModularShift(0xFFFE, q);
    }
  }

  /** 2^32 - 1 is itself a multiple of 65535, so completing a 32-bit sum never overflows. */
  lemma NeverOverflows(s: uint32)
    ensures s + 0xFFFF - LoopFold(s) < 0x1_0000_0000
  {
    hide LoopFold;
    LoopFoldIsModular(s);
    if s > 0 {
      var q := (s - 1) / 0xFFFF;
      assert s - 1 == 0xFFFF * q + (s - 1) % 0xFFFF;
      assert q <= 0x1_0000;
    }
  }

  /**
   * With the checksum stored in its zeroed, aligned field, computing it again gives zero: for data of any length,
   * even where the 32-bit sum itself has wrapped around.
   */
  lemma RecomputeIsZero(data: bytes, field: nat)
    requires field + 2 <= |data| && field % 2 == 0 && data[field] == data[field + 1] == 0
    ensures Checksum(Stored(data, field, Checksum(data))) == 0
  {
    hide LoopFold, Sum;
    var c, s := Checksum(data), Sum(data, 0) % 0x1_0000_0000;
    SumOfStored(data, field, c, 0);
    WrapOnce(Sum(data, 0), c);
    NeverOverflows(s);
    CompletedSum(s);
  }

  // ---- the echo request ----

  const ICMP_HEADER: nat := 28
  const PING_DATA: nat := 32

  /** The request `net_ping` sends, with its checksum field still zero. */
  function Request(id: uint16, sequence: uint16): (r: bytes)
    ensures |r| == ICMP_HEADER + PING_DATA
  {
    [8, 0, 0, 0, id / 256, id % 256, sequence / 256, sequence % 256] + seq(20, _ => 0) +
    seq(PING_DATA, i requires 0 <= i < 32 => i)
  }

  /** Building the request: the sequence number moves on, and the packet checks out. */
  method BuildRequest(id: uint16, lastSeq: uint16, pkt: array<byte>) returns (sequence: uint16)
    requires pkt.Length == ICMP_HEADER + PING_DATA
    modifies pkt
    ensures sequence == (lastSeq + 1) % 0x1_0000
    ensures Checksum(pkt[..]) == 0
    ensures pkt[..2] == Request(id, sequence)[..2] && pkt[4..] == Request(id, sequence)[4..]
  {
    hide Checksum;
    sequence := (lastSeq + 1) % 0x1_0000;
    FillRequest(pkt, id, sequence);
    var c := IcmpChecksum(pkt, pkt.Length);
    assert pkt[..pkt.Length] == pkt[..];
    RecomputeIsZero(pkt[..], 2);
    ghost var was := pkt[..];
    pkt[2], pkt[3] := c % 256, c / 256;
    assert pkt[..] == Stored(was, 2, c);
  }

  method FillRequest(pkt: array<byte>, id: uint16, sequence: uint16)
    requires pkt.Length == ICMP_HEADER + PING_DATA
    modifies pkt
    ensures pkt[..] == Request(id, sequence)
  {
    var i := 0;
    while i < pkt.Length
      invariant 0 <= i <= pkt.Length
      invariant forall k :: 0 <= k < i ==> pkt[k] == 0
    {
      pkt[i] := 0;
      i := i + 1;
    }
    pkt[0] := 8;
    pkt[4], pkt[5], pkt[6], pkt[7] := id / 256, id % 256, sequence / 256, sequence % 256;
    ghost var header := pkt[..ICMP_HEADER];
    i := 0;
    while i < PING_DATA
      invariant 0 <= i <= PING_DATA
      invariant pkt[..ICMP_HEADER] == header
      invariant forall k :: ICMP_HEADER <= k < ICMP_HEADER + i ==> pkt[k] == k - ICMP_HEADER
    {
      pkt[ICMP_HEADER + i] := i;
      i := i + 1;
    }
    ghost var r := Request(id, sequence);
    assert header == r[..ICMP_HEADER];
    assert forall k :: 0 <= k < pkt.Length ==> pkt[..][k] == r[k];
  }
}
