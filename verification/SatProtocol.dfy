/** Frames of the satellite protocol: layout, building, and what a receiver may rely on. */
module SatProtocol {
  import opened Bytes
  import opened SatBits
  import SatBurst
  import SatCrc

  const MAGIC_LOW: byte := 0x4D
  const MAGIC_HIGH: byte := 0x4E
  const VERSION: byte := 1
  const HEADER_SIZE: nat := 8
  const MAX_FRAME: nat := 256
  const MAX_PAYLOAD: nat := 246

  const MSG_SNAPSHOT: byte := 0x01
  const MSG_HEARTBEAT: byte := 0x02

  // ---- little-endian fields ----

  function Le16(a: byte, b: byte): uint16 { a + 256 * b }

  function Le32(a: byte, b: byte, c: byte, d: byte): uint32 { a + 256 * (b + 256 * (c + 256 * d)) }

  function Bytes16(n: uint16): (r: bytes)
    ensures |r| == 2 && Le16(r[0], r[1]) == n
  {
    [n % 256, n / 256]
  }

  function Bytes32(n: uint32): (r: bytes)
    ensures |r| == 4 && Le32(r[0], r[1], r[2], r[3]) == n
  {
    [n % 256, n / 256 % 256, n / 256 / 256 % 256, n / 256 / 256 / 256]
  }

  // ---- the CRC of a byte string ----

  function Raw(s: bytes): (r: seq<SatCrc.byte>)
    ensures |r| == |s|
  {
    seq(|s|, i requires 0 <= i < |s| => RawByte(s[i]))
  }

  function CrcOf(s: bytes): bv16 { SatCrc.Crc(Raw(s)) }

  /** The two bytes of a word, low byte first, and the word they make up again. */
  function LowHalf(w: bv16): SatCrc.byte { (w & 0xFF) as bv8 }
  function HighHalf(w: bv16): SatCrc.byte { ((w >> 8) & 0xFF) as bv8 }
  function LowByte(w: bv16): byte { ByteOf(LowHalf(w)) }
  function HighByte(w: bv16): byte { ByteOf(HighHalf(w)) }
  function WordOf(lo: byte, hi: byte): bv16 { SatCrc.Word(RawByte(lo), RawByte(hi)) }

  lemma WordBack(w: bv16)
    ensures WordOf(LowByte(w), HighByte(w)) == w
  {
    hide RawByte, ByteOf, LowHalf, HighHalf, SatCrc.Word;
    ByteBack(LowHalf(w));
    ByteBack(HighHalf(w));
    HalvesBack(w);
  }

  lemma HalvesBack(w: bv16)
    ensures SatCrc.Word(LowHalf(w), HighHalf(w)) == w
  {
  }

  /** `sat_crc16`. */
  method SatCrc16(data: array<byte>, len: uint16) returns (crc: bv16)
    requires len <= data.Length
    ensures crc == CrcOf(data[..len])
  {
    hide SatCrc.Crc, RawByte;
    crc := 0xFFFF;
    EmptyCrc();
    for i := 0 to len
      invariant crc == CrcOf(data[..i])
    {
      crc := SatCrc.MixByte(crc, RawByte(data[i]));
      CrcSnoc(data[..i], data[i]);
      assert data[..i + 1] == data[..i] + [data[i]];
    }
  }

  lemma EmptyCrc()
    ensures CrcOf([]) == 0xFFFF
  {
  }

  lemma CrcSnoc(s: bytes, b: byte)
    ensures CrcOf(s + [b]) == SatCrc.CrcByte(CrcOf(s), RawByte(b))
  {
    hide SatCrc.CrcByte, RawByte;
    var r := Raw(s + [b]);
    assert r[..|r| - 1] == Raw(s);
  }

  // ---- frames ----

  datatype Header = Header(magic: uint16, version: byte, msgType: byte, payloadLen: uint16, sequence: uint16)

  function HeaderOf(f: bytes): Header
    requires |f| >= HEADER_SIZE
  {
    Header(Le16(f[0], f[1]), f[2], f[3], Le16(f[4], f[5]), Le16(f[6], f[7]))
  }

  function HeaderBytes(msgType: byte, payloadLen: uint16, sequence: uint16): (r: bytes)
    ensures |r| == HEADER_SIZE
    ensures HeaderOf(r) == Header(0x4E4D, VERSION, msgType, payloadLen, sequence)
  {
    [MAGIC_LOW, MAGIC_HIGH, VERSION, msgType] + Bytes16(payloadLen) + Bytes16(sequence)
  }

  /** What a 16-bit length can say. */
  type payload16 = s: bytes | |s| < 0x1_0000 witness []

  function Covered(msgType: byte, payload: payload16, sequence: uint16): (r: bytes)
    ensures |r| == HEADER_SIZE + |payload|
  {
    HeaderBytes(msgType, |payload|, sequence) + payload
  }

  /** A byte string and its CRC; the length handed to `sat_crc16` has 16 bits. */
  function Sealing(covered: bytes): (f: bytes)
    ensures |f| == |covered| + 2
  {
    var crc := CrcOf(covered[..|covered| % 0x1_0000]);
    covered + [LowByte(crc), HighByte(crc)]
  }

  /** What `build_frame` puts on the wire. */
  function Frame(msgType: byte, payload: payload16, sequence: uint16): (f: bytes)
    ensures |f| == HEADER_SIZE + |payload| + 2
  {
    Sealing(Covered(msgType, payload, sequence))
  }

  /** A header the receiver goes along with. */
  predicate GoodHeader(h: Header) {
    h.version == VERSION && h.payloadLen <= MAX_PAYLOAD
  }

  /** The bytes the receiver cuts the stream by: magic, version and length agree with the size of `f`. */
  predicate WellFramed(f: bytes) {
    && |f| >= HEADER_SIZE + 2
    && f[0] == MAGIC_LOW
    && f[1] == MAGIC_HIGH
    && GoodHeader(HeaderOf(f))
    && |f| == HEADER_SIZE + HeaderOf(f).payloadLen + 2
  }

  /** The trailer is the CRC of everything in front of it. */
  predicate Intact(f: bytes) {
    |f| >= 2 && WordOf(f[|f| - 2], f[|f| - 1]) == CrcOf(f[..|f| - 2])
  }

  function PayloadOf(f: bytes): bytes
    requires |f| >= HEADER_SIZE + 2
  {
    f[HEADER_SIZE..|f| - 2]
  }

  /** A built frame says what it carries; a receiver goes along with it exactly up to the largest payload. */
  lemma FrameCarries(msgType: byte, payload: payload16, sequence: uint16)
    ensures var f := Frame(msgType, payload, sequence);
      && PayloadOf(f) == payload
      && HeaderOf(f) == Header(0x4E4D, VERSION, msgType, |payload|, sequence)
      && (WellFramed(f) <==> |payload| <= MAX_PAYLOAD)
      && (HEADER_SIZE + |payload| < 0x1_0000 ==> Intact(f))
  {
    hide Sealing, Covered, HeaderBytes;
    var f, c, h := Frame(msgType, payload, sequence), Covered(msgType, payload, sequence),
      HeaderBytes(msgType, |payload|, sequence);
    CoveredIs(msgType, payload, sequence);
    Sealed(c);
    assert forall i :: 0 <= i < HEADER_SIZE ==> f[i] == f[..|f| - 2][i] == c[i] == c[..HEADER_SIZE][i] == h[i];
    assert PayloadOf(f) == f[..|f| - 2][HEADER_SIZE..];
    MagicBytes(msgType, |payload|, sequence);
  }

  lemma CoveredIs(msgType: byte, payload: payload16, sequence: uint16)
    ensures var c := Covered(msgType, payload, sequence);
      c[..HEADER_SIZE] == HeaderBytes(msgType, |payload|, sequence) && c[HEADER_SIZE..] == payload
  {
    hide HeaderBytes;
  }

  lemma MagicBytes(msgType: byte, payloadLen: uint16, sequence: uint16)
    ensures var h := HeaderBytes(msgType, payloadLen, sequence); h[0] == MAGIC_LOW && h[1] == MAGIC_HIGH
  {
  }

  lemma Sealed(covered: bytes)
    ensures Sealing(covered)[..|covered|] == covered
    ensures |covered| < 0x1_0000 ==> Intact(Sealing(covered))
  {
    hide CrcOf, WordOf, LowByte, HighByte;
    var f := Sealing(covered);
    assert f[..|f| - 2] == covered;
    if |covered| < 0x1_0000 {
      assert covered[..|covered|] == covered;
      WordBack(CrcOf(covered));
    }
  }

  /** So nothing of it is lost: type, payload and sequence number can be read back. */
  lemma FrameInjective(t: byte, p: payload16, s: uint16, t': byte, p': payload16, s': uint16)
    requires Frame(t, p, s) == Frame(t', p', s')
    ensures t == t' && p == p' && s == s'
  {
    hide Frame, WellFramed, Intact, HeaderOf, PayloadOf;
    FrameCarries(t, p, s);
    FrameCarries(t', p', s');
  }

  /** `build_frame`: refuses exactly when the frame does not fit, and then touches nothing. */
  method BuildFrame(msgType: byte, payload: array<byte>, payloadLen: uint16, buf: array<byte>, seqIn: uint16)
    returns (total: int, seqOut: uint16)
    requires payloadLen <= payload.Length && payload != buf
    modifies buf
    ensures total == -1 <==> HEADER_SIZE + payloadLen + 2 > buf.Length
    ensures total == -1 ==> buf[..] == old(buf[..]) && seqOut == seqIn
    ensures total != -1 ==> total == HEADER_SIZE + payloadLen + 2 && seqOut == (seqIn + 1) % 0x1_0000
    ensures total != -1 ==> buf[..total] == Frame(msgType, payload[..payloadLen], seqIn)
    ensures total != -1 ==> buf[total..] == old(buf[total..])
  {
    hide Covered, Sealing;
    total := HEADER_SIZE + payloadLen + 2;
    if total > buf.Length {
      return -1, seqIn;
    }
    ghost var tail := buf[total..];
    PutHeader(msgType, payloadLen, seqIn, buf);
    assert buf[total..] == buf[HEADER_SIZE..][total - HEADER_SIZE..];
    seqOut := (seqIn + 1) % 0x1_0000;
    CopyPayload(payload, payloadLen, buf);
    CoveredPrefix(buf[..], msgType, payload[..payloadLen], seqIn);
    assert buf[total..] == buf[HEADER_SIZE + payloadLen..][2..] == tail;
    PutTrailer(buf, HEADER_SIZE + payloadLen);
  }

  lemma CoveredPrefix(buf: bytes, msgType: byte, payload: payload16, sequence: uint16)
    requires HEADER_SIZE + |payload| <= |buf|
    requires buf[..HEADER_SIZE] == HeaderBytes(msgType, |payload|, sequence)
    requires buf[HEADER_SIZE..HEADER_SIZE + |payload|] == payload
    ensures buf[..HEADER_SIZE + |payload|] == Covered(msgType, payload, sequence)
  {
    hide HeaderBytes;
    assert buf[..HEADER_SIZE + |payload|] == buf[..HEADER_SIZE] + buf[HEADER_SIZE..HEADER_SIZE + |payload|];
  }

  method PutTrailer(buf: array<byte>, n: nat)
    requires n + 2 <= buf.Length
    modifies buf
    ensures buf[..n + 2] == Sealing(old(buf[..n]))
    ensures buf[n + 2..] == old(buf[n + 2..])
  {
    hide CrcOf, LowByte, HighByte;
    var crc := SatCrc16(buf, n % 0x1_0000);
    assert buf[..n][..n % 0x1_0000] == buf[..n % 0x1_0000];
    buf[n], buf[n + 1] := LowByte(crc), HighByte(crc);
    assert buf[..n + 2] == buf[..n] + [buf[n], buf[n + 1]];
  }

  method PutHeader(msgType: byte, payloadLen: uint16, sequence: uint16, buf: array<byte>)
    requires HEADER_SIZE <= buf.Length
    modifies buf
    ensures buf[..HEADER_SIZE] == HeaderBytes(msgType, payloadLen, sequence)
    ensures buf[HEADER_SIZE..] == old(buf[HEADER_SIZE..])
  {
    buf[0], buf[1], buf[2], buf[3] := MAGIC_LOW, MAGIC_HIGH, VERSION, msgType;
    buf[4], buf[5] := payloadLen % 256, payloadLen / 256;
    buf[6], buf[7] := sequence % 256, sequence / 256;
  }

  method CopyPayload(payload: array<byte>, n: nat, buf: array<byte>)
    requires n <= payload.Length && HEADER_SIZE + n <= buf.Length && payload != buf
    modifies buf
    ensures buf[..HEADER_SIZE] == old(buf[..HEADER_SIZE]) && buf[HEADER_SIZE..HEADER_SIZE + n] == payload[..n]
    ensures buf[HEADER_SIZE + n..] == old(buf[HEADER_SIZE + n..])
  {
    for i := 0 to n
      invariant forall k :: 0 <= k < i ==> buf[HEADER_SIZE + k] == payload[k]
      invariant forall k :: 0 <= k < HEADER_SIZE || HEADER_SIZE + i <= k < buf.Length ==> buf[k] == old(buf[k])
    {
      buf[HEADER_SIZE + i] := payload[i];
    }
  }

  // ---- corrupted frames ----

  lemma IntactIsSealed(f: bytes)
    ensures Intact(f) <==> SatCrc.Sealed(Raw(f))
  {
    hide RawByte, SatCrc.Crc, SatCrc.Word;
    if |f| >= 2 {
      RawTake(f, |f| - 2);
    }
  }

  /** The bits in which two byte strings differ. */
  function Flips(f: bytes, g: bytes): seq<bool>
    requires |f| == |g|
  {
    SatCrc.AllBits(SatCrc.Difference(Raw(f), Raw(g)))
  }

  /** The flipped bits of `g` lie within 16 places, all of them in front of the trailer. */
  predicate BurstHit(f: bytes, g: bytes, i: nat) {
    && |f| == |g| >= 2
    && g[|g| - 2..] == f[|f| - 2..]
    && SatCrc.Burst(Flips(f[..|f| - 2], g[..|g| - 2]), i)
  }

  predicate OddHit(f: bytes, g: bytes) {
    |f| == |g| && SatCrc.Odd(Flips(f, g))
  }

  /** The flipped bits of `g` lie within 12 places, anywhere in the frame. */
  predicate ShortHit(f: bytes, g: bytes, i: nat) {
    |f| == |g| && SatCrc.Within(Flips(f, g), i, SatBurst.ANYWHERE)
  }

  /** A change that the trailer is certain to show. */
  ghost predicate Noticeable(f: bytes, g: bytes) {
    || OddHit(f, g)
    || (exists i: nat :: BurstHit(f, g, i))
    || (exists i: nat :: ShortHit(f, g, i))
  }

  lemma NoticeableBreaks(f: bytes, g: bytes)
    requires Intact(f) && Noticeable(f, g)
    ensures !Intact(g)
  {
    hide Intact, OddHit, BurstHit, ShortHit;
    if OddHit(f, g) {
      OddBreaks(f, g);
    } else if exists i: nat :: BurstHit(f, g, i) {
      var i: nat :| BurstHit(f, g, i);
      BurstBreaks(f, g, i);
    } else {
      var i: nat :| ShortHit(f, g, i);
      ShortBreaks(f, g, i);
    }
  }

  lemma ShortBreaks(f: bytes, g: bytes, i: nat)
    requires Intact(f) && ShortHit(f, g, i)
    ensures !Intact(g)
  {
    hide SatCrc.Within, SatCrc.Sealed, SatCrc.AllBits, SatCrc.Difference;
    IntactIsSealed(f);
    IntactIsSealed(g);
    SatBurst.ShortBurstNoticed(Raw(f), Raw(g), i);
  }

  lemma BurstBreaks(f: bytes, g: bytes, i: nat)
    requires Intact(f) && BurstHit(f, g, i)
    ensures !Intact(g)
  {
    hide SatCrc.Burst, SatCrc.Sealed, SatCrc.AllBits, SatCrc.Difference;
    var n := |f| - 2;
    IntactIsSealed(f);
    IntactIsSealed(g);
    RawTake(f, n);
    RawTake(g, n);
    SatCrc.BurstNoticed(Raw(f), Raw(g), i);
  }

  lemma RawTake(f: bytes, n: nat)
    requires n <= |f|
    ensures Raw(f)[..n] == Raw(f[..n]) && Raw(f)[n..] == Raw(f[n..])
  {
    hide RawByte;
  }

  lemma OddBreaks(f: bytes, g: bytes)
    requires Intact(f) && OddHit(f, g)
    ensures !Intact(g)
  {
    hide SatCrc.Odd, SatCrc.Sealed, SatCrc.AllBits, SatCrc.Difference;
    IntactIsSealed(f);
    IntactIsSealed(g);
    SatCrc.OddNoticed(Raw(f), Raw(g));
  }
}
