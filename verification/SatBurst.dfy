/** Bursts that may reach into the trailer, which travels low byte first: twelve bits are always noticed. */
module SatBurst {
  import opened SatCrc

  // ---- eight rounds at once ----

  function Moved(v: bv16): bv16 { v << 4 }
  function Out(v: bv16): bv16 { v >> 12 }
  function Out12(v: bv16): bv16 { (v >> 12) << 12 }
  function Out5(v: bv16): bv16 { (v >> 12) << 5 }

  /** What four rounds of the inner loop do: the polynomial is added as the bits shifted out say. */
  function FourRounds(v: bv16): bv16 { Xor(Xor(Moved(v), Out12(v)), Xor(Out5(v), Out(v))) }

  function EightRounds(v: bv16): bv16 { FourRounds(FourRounds(v)) }

  lemma {:induction false} ShiftsMore(v: bv16, m: nat, n: nat)
    ensures Shifts(v, m + n) == Shifts(Shifts(v, m), n)
    decreases n
  {
    hide Shift;
    if n > 0 { ShiftsMore(v, m, n - 1); }
  }

  predicate Agree(v: bv16) { Shifts(v, 4) == FourRounds(v) }

  lemma FourLinear(x: bv16, y: bv16)
    ensures FourRounds(Xor(x, y)) == Xor(FourRounds(x), FourRounds(y))
  {
    hide Xor, Moved, Out, Out5, Out12;
    MovedLinear(x, y);
    OutLinear(x, y);
    Out5Linear(x, y);
    Out12Linear(x, y);
    XorShuffle(Moved(x), Moved(y), Out12(x), Out12(y));
    XorShuffle(Out5(x), Out5(y), Out(x), Out(y));
    XorShuffle(Xor(Moved(x), Out12(x)), Xor(Moved(y), Out12(y)), Xor(Out5(x), Out(x)), Xor(Out5(y), Out(y)));
  }

  lemma MovedLinear(x: bv16, y: bv16)
    ensures Moved(Xor(x, y)) == Xor(Moved(x), Moved(y))
  {
  }

  lemma OutLinear(x: bv16, y: bv16)
    ensures Out(Xor(x, y)) == Xor(Out(x), Out(y))
  {
  }

  lemma Out5Linear(x: bv16, y: bv16)
    ensures Out5(Xor(x, y)) == Xor(Out5(x), Out5(y))
  {
  }

  lemma Out12Linear(x: bv16, y: bv16)
    ensures Out12(Xor(x, y)) == Xor(Out12(x), Out12(y))
  {
  }

  lemma AgreeXor(x: bv16, y: bv16)
    requires Agree(x) && Agree(y)
    ensures Agree(Xor(x, y))
  {
    hide Shifts, FourRounds, Xor;
    ShiftsLinear(x, y, 4);
    FourLinear(x, y);
  }

  lemma AgreeBits()
    ensures Agree(0) && Agree(0x1000) && Agree(0x2000) && Agree(0x4000) && Agree(0x8000)
  {
    assert Shift(0) == 0;
    assert Shift(0x1000) == 0x2000 && Shift(0x2000) == 0x4000 && Shift(0x4000) == 0x8000 && Shift(0x8000) == 0x1021;
    assert Shift(0x1021) == 0x2042 && Shift(0x2042) == 0x4084 && Shift(0x4084) == 0x8108;
    FourSteps(0, 0, 0, 0, 0);
    FourSteps(0x1000, 0x2000, 0x4000, 0x8000, 0x1021);
    FourSteps(0x2000, 0x4000, 0x8000, 0x1021, 0x2042);
    FourSteps(0x4000, 0x8000, 0x1021, 0x2042, 0x4084);
    FourSteps(0x8000, 0x1021, 0x2042, 0x4084, 0x8108);
  }

  lemma FourSteps(v: bv16, a: bv16, b: bv16, c: bv16, d: bv16)
    requires Shift(v) == a && Shift(a) == b && Shift(b) == c && Shift(c) == d
    ensures Shifts(v, 4) == d
  {
    hide Shift;
    assert Shifts(v, 2) == Shift(Shifts(v, 1)) == b;
    assert Shifts(v, 4) == Shift(Shifts(v, 3)) == Shift(Shift(Shifts(v, 2)));
  }

  lemma OnlyDoubled(v: bv16, mask: bv16)
    requires v & mask == 0 && mask & 0x8000 != 0
    ensures Shift(v) == Twice(v) && Twice(v) & (mask << 1) == 0
  {
    NoTop(v, mask);
  }

  lemma NoTop(v: bv16, mask: bv16)
    requires v & mask == 0 && mask & 0x8000 != 0
    ensures !Top(v) && Twice(v) & (mask << 1) == 0
  {
  }

  lemma AgreeLow(v: bv16)
    requires v & 0xF000 == 0
    ensures Agree(v)
  {
    hide Shift, Shifts, Twice, FourRounds;
    OnlyDoubled(v, 0xF000);
    OnlyDoubled(Twice(v), 0xE000);
    OnlyDoubled(Twice(Twice(v)), 0xC000);
    OnlyDoubled(Twice(Twice(Twice(v))), 0x8000);
    FourSteps(v, Twice(v), Twice(Twice(v)), Twice(Twice(Twice(v))), Twice(Twice(Twice(Twice(v)))));
    FourOfLow(v);
  }

  lemma FourOfLow(v: bv16)
    requires v & 0xF000 == 0
    ensures FourRounds(v) == Twice(Twice(Twice(Twice(v))))
  {
  }

  lemma OneOrNone(v: bv16)
    ensures v & 0x1000 == 0 || v & 0x1000 == 0x1000
    ensures v & 0x2000 == 0 || v & 0x2000 == 0x2000
    ensures v & 0x4000 == 0 || v & 0x4000 == 0x4000
    ensures v & 0x8000 == 0 || v & 0x8000 == 0x8000
  {
  }

  lemma InFive(v: bv16)
    ensures v == Xor(Xor(Xor(Xor(v & 0x0FFF, v & 0x1000), v & 0x2000), v & 0x4000), v & 0x8000)
    ensures (v & 0x0FFF) & 0xF000 == 0
  {
  }

  lemma AgreeAll(v: bv16)
    ensures Agree(v)
  {
    hide Agree, Xor;
    OneOrNone(v);
    AgreeBits();
    InFive(v);
    AgreeLow(v & 0x0FFF);
    AgreeXor(v & 0x0FFF, v & 0x1000);
    var w := Xor(v & 0x0FFF, v & 0x1000);
    AgreeXor(w, v & 0x2000);
    AgreeXor(Xor(w, v & 0x2000), v & 0x4000);
    AgreeXor(Xor(Xor(w, v & 0x2000), v & 0x4000), v & 0x8000);
  }

  /** What eight rounds of the inner loop do. */
  lemma EightShiftsAre(v: bv16)
    ensures Shifts(v, 8) == EightRounds(v)
  {
    hide Shifts, FourRounds;
    ShiftsMore(v, 4, 4);
    AgreeAll(v);
    AgreeAll(FourRounds(v));
  }

  /** The register, from zero, after two bytes. */
  function AfterTwo(a: byte, b: byte): bv16 { EightRounds(Xor(EightRounds(High(a)), High(b))) }

  lemma FromZero(x: bv16)
    ensures Xor(0, x) == x
  {
  }

  lemma TwoBytes(a: byte, b: byte)
    ensures CrcByte(CrcByte(0, a), b) == AfterTwo(a, b)
  {
    hide Shifts, EightRounds, Xor, High;
    EightShiftsAre(High(a));
    FromZero(High(a));
    EightShiftsAre(Xor(CrcByte(0, a), High(b)));
  }

  // ---- the bits of a byte, by mask ----

  function Bit(k: nat): byte
    requires k < 8
  {
    if k == 0 then 0x80 else if k == 1 then 0x40 else if k == 2 then 0x20 else if k == 3 then 0x10
    else if k == 4 then 0x08 else if k == 5 then 0x04 else if k == 6 then 0x02 else 0x01
  }

  /** The first `k` bits. */
  function Head(k: nat): byte
    requires k <= 8
  {
    if k == 0 then 0x00 else if k == 1 then 0x80 else if k == 2 then 0xC0 else if k == 3 then 0xE0
    else if k == 4 then 0xF0 else if k == 5 then 0xF8 else if k == 6 then 0xFC else if k == 7 then 0xFE else 0xFF
  }

  /** All but the first `k` bits. */
  function Tail(k: nat): byte
    requires k <= 8
  {
    if k == 0 then 0xFF else if k == 1 then 0x7F else if k == 2 then 0x3F else if k == 3 then 0x1F
    else if k == 4 then 0x0F else if k == 5 then 0x07 else if k == 6 then 0x03 else if k == 7 then 0x01 else 0x00
  }

  predicate Meets(b: byte, mask: byte) { b & mask != 0 }

  lemma HeadNext(k: nat)
    requires k < 8
    ensures Head(k + 1) == Head(k) | Bit(k)
  {
  }

  lemma TailNext(k: nat)
    requires k < 8
    ensures Tail(k) == Tail(k + 1) | Bit(k)
  {
  }

  lemma MeetsEither(b: byte, m: byte, n: byte)
    ensures Meets(b, m | n) <==> Meets(b, m) || Meets(b, n)
  {
  }

  lemma {:induction false} LeadingAt(b: byte, n: nat, k: nat)
    requires k < n
    ensures Leading(b, n)[k] == TopBit(After(b, k))
    decreases k
  {
    hide TopBit, TwiceByte;
    if k > 0 { LeadingAt(TwiceByte(b), n - 1, k - 1); }
  }

  lemma TopBitIs(b: byte)
    ensures TopBit(b) == Meets(b, 0x80)
    ensures Meets(TwiceByte(b), 0x80) == Meets(b, 0x40) && Meets(TwiceByte(b), 0x40) == Meets(b, 0x20)
    ensures Meets(TwiceByte(b), 0x20) == Meets(b, 0x10) && Meets(TwiceByte(b), 0x10) == Meets(b, 0x08)
    ensures Meets(TwiceByte(b), 0x08) == Meets(b, 0x04) && Meets(TwiceByte(b), 0x04) == Meets(b, 0x02)
    ensures Meets(TwiceByte(b), 0x02) == Meets(b, 0x01)
  {
  }

  lemma {:induction false} AfterMeets(b: byte, k: nat)
    requires k < 8
    ensures TopBit(After(b, k)) == Meets(b, Bit(k))
    decreases k
  {
    hide Meets, TopBit, TwiceByte;
    TopBitIs(b);
    if k > 0 { AfterMeets(TwiceByte(b), k - 1); }
  }

  lemma BitAt(b: byte, k: nat)
    requires k < 8
    ensures Bits(b)[k] == Meets(b, Bit(k))
  {
    hide Leading, TopBit, After, Meets;
    LeadingAt(b, 8, k);
    AfterMeets(b, k);
  }

  lemma {:induction false} HeadClear(b: byte, k: nat)
    requires k <= 8 && forall j :: 0 <= j < k ==> !Bits(b)[j]
    ensures !Meets(b, Head(k))
    decreases k
  {
    hide Bits, Bit, Meets;
    if k == 0 {
      NoMask(b);
    } else {
      HeadClear(b, k - 1);
      BitAt(b, k - 1);
      HeadNext(k - 1);
      MeetsEither(b, Head(k - 1), Bit(k - 1));
    }
  }

  lemma NoMask(b: byte)
    ensures !Meets(b, 0)
  {
  }

  lemma {:induction false} TailClear(b: byte, k: nat)
    requires k <= 8 && forall j :: k <= j < 8 ==> !Bits(b)[j]
    ensures !Meets(b, Tail(k))
    decreases 8 - k
  {
    hide Bits, Bit, Meets;
    if k == 8 {
      NoMask(b);
    } else {
      TailClear(b, k + 1);
      BitAt(b, k);
      TailNext(k);
      MeetsEither(b, Tail(k + 1), Bit(k));
    }
  }

  // ---- no trailer fits behind the end of a message ----

  /**
   * The set bits of two covered bytes and two trailer bytes lie within twelve places of the first of them, which is the
   * one `a` places in front of the trailer.
   */
  predicate Straddles(e0: byte, e1: byte, lo: byte, hi: byte, a: nat)
    requires 1 <= a <= 11
  {
    if a <= 8 then
      && !Meets(e0, 0xFF) && !Meets(e1, Head(8 - a)) && Meets(e1, Bit(8 - a))
      && !Meets(lo, Tail(if a < 4 then 8 else 12 - a)) && !Meets(hi, Tail(if a < 4 then 4 - a else 0))
    else
      && !Meets(e0, Head(16 - a)) && Meets(e0, Bit(16 - a)) && !Meets(lo, Tail(12 - a)) && !Meets(hi, 0xFF)
  }

  /** Such bits never agree with each other. */
  lemma NoneFits(e0: byte, e1: byte, lo: byte, hi: byte, a: nat)
    requires 1 <= a <= 11 && Straddles(e0, e1, lo, hi, a)
    ensures AfterTwo(e0, e1) != Word(lo, hi)
  {
    hide AfterTwo, Word;
    if a <= 8 {
      NothingSet(e0);
      if a >= 4 { NothingSet(hi); }
      LowSide(e1, lo, hi, a);
    } else {
      NothingSet(hi);
      HighSide(e0, e1, lo, a);
    }
  }

  lemma NothingSet(b: byte)
    requires !Meets(b, 0xFF)
    ensures b == 0
  {
  }

  lemma LowSide(e1: byte, lo: byte, hi: byte, a: nat)
    requires 1 <= a <= 8 && Straddles(0, e1, lo, hi, a)
    ensures AfterTwo(0, e1) != Word(lo, hi)
  {
    hide AfterTwo, Word;
    if a == 1 { Fits1(e1, lo, hi); }
    if a == 2 { Fits2(e1, lo, hi); }
    if a == 3 { Fits3(e1, lo, hi); }
    if a == 4 { Fits4(e1, lo, hi); }
    if a == 5 { Fits5(e1, lo, hi); }
    if a == 6 { Fits6(e1, lo, hi); }
    if a == 7 { Fits7(e1, lo, hi); }
    if a == 8 { Fits8(e1, lo, hi); }
  }

  lemma HighSide(e0: byte, e1: byte, lo: byte, a: nat)
    requires 9 <= a <= 11 && Straddles(e0, e1, lo, 0, a)
    ensures AfterTwo(e0, e1) != Word(lo, 0)
  {
    hide AfterTwo, Word;
    if a == 9 { Fits9(e0, e1, lo); }
    if a == 10 { Fits10(e0, e1, lo); }
    if a == 11 { Fits11(e0, e1, lo); }
  }

  lemma Fits1(e: byte, lo: byte, hi: byte)
    requires !Meets(e, 0xFE) && Meets(e, 0x01) && !Meets(lo, 0x00) && !Meets(hi, 0x1F)
    ensures AfterTwo(0, e) != Word(lo, hi)
  {
  }

  lemma Fits2(e: byte, lo: byte, hi: byte)
    requires !Meets(e, 0xFC) && Meets(e, 0x02) && !Meets(lo, 0x00) && !Meets(hi, 0x3F)
    ensures AfterTwo(0, e) != Word(lo, hi)
  {
  }

  lemma Fits3(e: byte, lo: byte, hi: byte)
    requires !Meets(e, 0xF8) && Meets(e, 0x04) && !Meets(lo, 0x00) && !Meets(hi, 0x7F)
    ensures AfterTwo(0, e) != Word(lo, hi)
  {
  }

  lemma Fits4(e: byte, lo: byte, hi: byte)
    requires !Meets(e, 0xF0) && Meets(e, 0x08) && !Meets(lo, 0x00) && !Meets(hi, 0xFF)
    ensures AfterTwo(0, e) != Word(lo, hi)
  {
  }

  lemma Fits5(e: byte, lo: byte, hi: byte)
    requires !Meets(e, 0xE0) && Meets(e, 0x10) && !Meets(lo, 0x01) && !Meets(hi, 0xFF)
    ensures AfterTwo(0, e) != Word(lo, hi)
  {
  }

  lemma Fits6(e: byte, lo: byte, hi: byte)
    requires !Meets(e, 0xC0) && Meets(e, 0x20) && !Meets(lo, 0x03) && !Meets(hi, 0xFF)
    ensures AfterTwo(0, e) != Word(lo, hi)
  {
  }

  lemma Fits7(e: byte, lo: byte, hi: byte)
    requires !Meets(e, 0x80) && Meets(e, 0x40) && !Meets(lo, 0x07) && !Meets(hi, 0xFF)
    ensures AfterTwo(0, e) != Word(lo, hi)
  {
  }

  lemma Fits8(e: byte, lo: byte, hi: byte)
    requires !Meets(e, 0x00) && Meets(e, 0x80) && !Meets(lo, 0x0F) && !Meets(hi, 0xFF)
    ensures AfterTwo(0, e) != Word(lo, hi)
  {
  }

  lemma Fits9(d: byte, e: byte, lo: byte)
    requires !Meets(d, 0xFE) && Meets(d, 0x01) && !Meets(lo, 0x1F)
    ensures AfterTwo(d, e) != Word(lo, 0)
  {
  }

  lemma Fits10(d: byte, e: byte, lo: byte)
    requires !Meets(d, 0xFC) && Meets(d, 0x02) && !Meets(lo, 0x3F)
    ensures AfterTwo(d, e) != Word(lo, 0)
  {
  }

  lemma Fits11(d: byte, e: byte, lo: byte)
    requires !Meets(d, 0xF8) && Meets(d, 0x04) && !Meets(lo, 0x7F)
    ensures AfterTwo(d, e) != Word(lo, 0)
  {
  }

  // ---- whole frames ----

  /** How many places a burst may span and still be noticed wherever it falls. */
  const ANYWHERE: nat := 12

  /** The register after a difference, bit by bit and byte by byte. */
  lemma FeedOfBytes(d: seq<byte>)
    ensures CrcFrom(0, d) == Feed(0, AllBits(d))
  {
    CrcIsFeed(0, d);
  }

  lemma {:induction false} ZeroBits(d: seq<byte>)
    requires forall j :: 0 <= j < 8 * |d| ==> !AllBits(d)[j]
    ensures CrcFrom(0, d) == 0
  {
    hide AllBits, Feed, CrcFrom;
    FeedOfBytes(d);
    ZerosKeep(0, AllBits(d));
  }

  lemma AllBitsSplit(d: seq<byte>, b: byte)
    ensures AllBits(d + [b]) == AllBits(d) + Bits(b)
  {
    hide Bits;
    assert (d + [b])[..|d + [b]| - 1] == d;
  }

  lemma CrcSplit(d: seq<byte>, b: byte)
    ensures CrcFrom(0, d + [b]) == CrcByte(CrcFrom(0, d), b)
  {
    hide CrcByte;
    assert (d + [b])[..|d + [b]| - 1] == d;
  }

  /** A difference whose set bits all lie within the last 16 leaves what its last two bytes leave. */
  lemma LastTwo(d: seq<byte>) returns (e0: byte, e1: byte)
    requires d != [] && forall j :: 0 <= j < 8 * |d| - 16 ==> !AllBits(d)[j]
    ensures CrcFrom(0, d) == CrcByte(CrcByte(0, e0), e1)
    ensures forall k :: 0 <= k < 8 ==> Bits(e1)[k] == AllBits(d)[8 * |d| - 8 + k]
    ensures |d| == 1 ==> e0 == 0
    ensures |d| > 1 ==> forall k :: 0 <= k < 8 ==> Bits(e0)[k] == AllBits(d)[8 * |d| - 16 + k]
  {
    hide CrcByte, CrcFrom, Bits, AllBits;
    var m := |d| - 1;
    e1 := d[m];
    assert d == d[..m] + [e1];
    AllBitsSplit(d[..m], e1);
    CrcSplit(d[..m], e1);
    if m == 0 {
      e0 := 0;
      NothingFed();
    } else {
      e0 := d[m - 1];
      var front := d[..m - 1];
      assert d[..m] == front + [e0];
      AllBitsSplit(front, e0);
      CrcSplit(front, e0);
      forall j | 0 <= j < 8 * |front| ensures !AllBits(front)[j] { assert AllBits(d)[j] == AllBits(front)[j]; }
      ZeroBits(front);
    }
  }

  lemma NothingFed()
    ensures CrcFrom(0, []) == 0 && CrcByte(0, 0) == 0
  {
    assert Xor(0, High(0)) == 0;
    ShiftsOfZero(8);
  }

  lemma NoBits(k: nat)
    requires k < 8
    ensures !Bits(0)[k]
  {
    BitAt(0, k);
  }

  lemma WordOfZero(lo: byte, hi: byte)
    ensures Word(lo, hi) == 0 <==> lo == 0 && hi == 0
  {
  }

  lemma StraddleBits(e0: byte, e1: byte, lo: byte, hi: byte, a: nat)
    requires 1 <= a <= 11 && if a <= 8 then Bits(e1)[8 - a] else Bits(e0)[16 - a]
    requires forall k :: 0 <= k < 8 && Bits(e0)[k] ==> 16 - a <= k
    requires forall k :: 0 <= k < 8 && Bits(e1)[k] ==> 8 - a <= k
    requires forall k :: 0 <= k < 8 && Bits(lo)[k] ==> k < 12 - a
    requires forall k :: 0 <= k < 8 && Bits(hi)[k] ==> k < 4 - a
    ensures Straddles(e0, e1, lo, hi, a)
  {
    hide Bits, Bit, Meets;
    if a <= 8 {
      HeadClear(e0, 8);
      HeadClear(e1, 8 - a);
      BitAt(e1, 8 - a);
      TailClear(lo, if a < 4 then 8 else 12 - a);
      TailClear(hi, if a < 4 then 4 - a else 0);
    } else {
      HeadClear(e0, 16 - a);
      BitAt(e0, 16 - a);
      TailClear(lo, 12 - a);
      TailClear(hi, 0);
    }
  }

  /** The set bits of the difference straddle the border: message and trailer cannot agree. */
  lemma Border(d: seq<byte>, lo: byte, hi: byte, i: nat)
    requires Within(AllBits(d) + (Bits(lo) + Bits(hi)), i, ANYWHERE) && i < 8 * |d| < i + ANYWHERE
    ensures CrcFrom(0, d) != Word(lo, hi)
  {
    hide CrcFrom, CrcByte, Bits, AllBits, Word, AfterTwo, Straddles, Within;
    InParts(AllBits(d), Bits(lo), Bits(hi), i);
    var e0, e1 := BorderBytes(d, i);
    StraddleBits(e0, e1, lo, hi, 8 * |d| - i);
    NoneFits(e0, e1, lo, hi, 8 * |d| - i);
    TwoBytes(e0, e1);
  }

  lemma BorderBytes(d: seq<byte>, i: nat) returns (e0: byte, e1: byte)
    requires i < 8 * |d| < i + ANYWHERE && AllBits(d)[i]
    requires forall j :: 0 <= j < 8 * |d| && AllBits(d)[j] ==> i <= j
    ensures CrcFrom(0, d) == CrcByte(CrcByte(0, e0), e1)
    ensures var a := 8 * |d| - i;
      && (if a <= 8 then Bits(e1)[8 - a] else Bits(e0)[16 - a])
      && (forall k :: 0 <= k < 8 && Bits(e0)[k] ==> 16 - a <= k)
      && (forall k :: 0 <= k < 8 && Bits(e1)[k] ==> 8 - a <= k)
  {
    hide CrcFrom, CrcByte, Bits, AllBits;
    e0, e1 := LastTwo(d);
    if |d| == 1 {
      forall k | 0 <= k < 8 ensures !Bits(e0)[k] { NoBits(k); }
    }
    AtTheEnd(AllBits(d), Bits(e0), Bits(e1), i);
  }

  lemma AtTheEnd(m: seq<bool>, b0: seq<bool>, b1: seq<bool>, i: nat)
    requires |b0| == |b1| == 8 && 8 <= |m| && i < |m| < i + ANYWHERE && (|m| < 16 ==> |m| == 8)
    requires m[i] && forall j :: 0 <= j < |m| && m[j] ==> i <= j
    requires forall k :: 0 <= k < 8 ==> b1[k] == m[|m| - 8 + k]
    requires if |m| == 8 then forall k :: 0 <= k < 8 ==> !b0[k] else forall k :: 0 <= k < 8 ==> b0[k] == m[|m| - 16 + k]
    ensures var a := |m| - i;
      && (if a <= 8 then b1[8 - a] else b0[16 - a])
      && (forall k :: 0 <= k < 8 && b0[k] ==> 16 - a <= k)
      && (forall k :: 0 <= k < 8 && b1[k] ==> 8 - a <= k)
  {
    var a := |m| - i;
    if a <= 8 { assert b1[8 - a] == m[i]; } else { assert b0[16 - a] == m[i]; }
  }

  /** What such a burst means for the message bits and for the two trailer bytes. */
  lemma InParts(m: seq<bool>, lo: seq<bool>, hi: seq<bool>, i: nat)
    requires |lo| == |hi| == 8 && Within(m + (lo + hi), i, ANYWHERE) && i < |m| < i + ANYWHERE
    ensures m[i] && forall j :: 0 <= j < |m| && m[j] ==> i <= j
    ensures forall k :: 0 <= k < 8 && lo[k] ==> |m| + k < i + ANYWHERE
    ensures forall k :: 0 <= k < 8 && hi[k] ==> |m| + 8 + k < i + ANYWHERE
  {
    var all := m + (lo + hi);
    assert forall j :: 0 <= j < |m| ==> all[j] == m[j];
    assert forall k :: 0 <= k < 8 ==> all[|m| + k] == lo[k];
    assert forall k :: 0 <= k < 8 ==> all[|m| + 8 + k] == hi[k];
  }

  lemma BitsOfTrailer(b: byte)
    requires b != 0
    ensures exists k :: 0 <= k < 8 && Bits(b)[k]
  {
    hide Bits;
    if forall k :: 0 <= k < 8 ==> !Bits(b)[k] {
      HeadClear(b, 8);
      NothingSet(b);
    }
  }

  /** No difference of at most twelve bits, trailer included, changes message and trailer alike. */
  lemma NeverAlike(d: seq<byte>, lo: byte, hi: byte, i: nat)
    requires Within(AllBits(d) + (Bits(lo) + Bits(hi)), i, ANYWHERE)
    ensures CrcFrom(0, d) != Word(lo, hi)
  {
    hide CrcFrom, Bits, AllBits, Word;
    var all, n := AllBits(d) + (Bits(lo) + Bits(hi)), 8 * |d|;
    forall j | 0 <= j < n ensures all[j] == AllBits(d)[j] {}
    forall k | 0 <= k < 8 ensures Bits(lo)[k] == all[n + k] && Bits(hi)[k] == all[n + 8 + k] {}
    WordOfZero(lo, hi);
    if i >= n {
      ZeroBits(d);
      if lo == 0 && hi == 0 {
        NoBits(if i < n + 8 then i - n else i - n - 8);
      }
    } else if i + ANYWHERE <= n {
      InFront(d, i);
      if lo != 0 { BitsOfTrailer(lo); }
      if hi != 0 { BitsOfTrailer(hi); }
    } else {
      Border(d, lo, hi, i);
    }
  }

  lemma InFront(d: seq<byte>, i: nat)
    requires Within(AllBits(d), i, ANYWHERE)
    ensures CrcFrom(0, d) != 0
  {
    hide CrcFrom, AllBits, Feed;
    FeedOfBytes(d);
    BurstLeavesTrace(AllBits(d), i);
  }

  /** Any burst of at most twelve bits anywhere in a frame, trailer included, is noticed. */
  lemma ShortBurstNoticed(f: seq<byte>, g: seq<byte>, i: nat)
    requires Sealed(f) && |g| == |f| && Within(AllBits(Difference(f, g)), i, ANYWHERE)
    ensures !Sealed(g)
  {
    hide CrcFrom, Xor, AllBits, Word, Bits, Difference, XorByte, Within;
    var n := |f| - 2;
    SplitDifference(f, g);
    CrcOfDifference(0xFFFF, 0xFFFF, f[..n], g[..n]);
    SelfXor(0xFFFF);
    WordXor(f[n], f[n + 1], g[n], g[n + 1]);
    NeverAlike(Difference(f[..n], g[..n]), XorByte(f[n], g[n]), XorByte(f[n + 1], g[n + 1]), i);
  }

  // ---- thirteen bits can slip ----

  /** `f` with its last covered bit flipped, and the trailer changed to match. */
  function Slipped(f: seq<byte>): seq<byte>
    requires |f| >= 3
  {
    var n := |f| - 2;
    f[..n - 1] + [XorByte(f[n - 1], 0x01), XorByte(f[n], 0x21), XorByte(f[n + 1], 0x10)]
  }

  lemma SlipIsAlike()
    ensures CrcByte(0, 0x01) == Word(0x21, 0x10)
  {
    hide Shifts;
    EightShiftsAre(Xor(0, High(0x01)));
  }

  lemma SlipDifference(f: seq<byte>)
    requires |f| >= 3
    ensures |Slipped(f)| == |f| && Slipped(f) != f
    ensures Difference(f, Slipped(f)) == seq(|f| - 3, _ => 0) + [0x01, 0x21, 0x10]
    ensures Difference(f[..|f| - 2], Slipped(f)[..|f| - 2]) == seq(|f| - 3, _ => 0) + [0x01]
  {
    hide XorByte;
    var n := |f| - 2;
    ByteXor(f[n - 1], 0x01);
    ByteXor(f[n], 0x21);
    ByteXor(f[n + 1], 0x10);
    var d := Difference(f, Slipped(f));
    var r := seq(|f| - 3, _ => 0 as byte) + [0x01, 0x21, 0x10];
    forall j | 0 <= j < |f| ensures d[j] == r[j] {
      ByteXor(f[j], 0);
    }
    assert Slipped(f)[n - 1] == XorByte(f[n - 1], 0x01);
    var e := Difference(f[..n], Slipped(f)[..n]);
    var q := seq(|f| - 3, _ => 0 as byte) + [0x01];
    forall j | 0 <= j < n ensures e[j] == q[j] { assert d[j] == e[j]; }
  }

  lemma XorCancel(x: bv16, y: bv16, z: bv16)
    requires Xor(x, y) == Xor(x, z)
    ensures y == z
  {
  }

  lemma SlippedAlike(f: seq<byte>)
    requires Sealed(f) && |f| >= 3
    ensures Sealed(Slipped(f))
  {
    hide CrcFrom, Xor, Word, XorByte, Difference, CrcByte;
    var n, g := |f| - 2, Slipped(f);
    SlipDifference(f);
    CrcOfDifference(0xFFFF, 0xFFFF, f[..n], g[..n]);
    SelfXor(0xFFFF);
    CrcOfZeros(n - 1);
    CrcSplit(seq(n - 1, _ => 0), 0x01);
    SlipIsAlike();
    ByteXor(f[n], 0x21);
    ByteXor(f[n + 1], 0x10);
    WordXor(f[n], f[n + 1], g[n], g[n + 1]);
    XorCancel(Crc(f[..n]), Crc(g[..n]), Word(g[n], g[n + 1]));
  }

  lemma {:induction false} NoneSet(z: seq<byte>)
    requires forall i :: 0 <= i < |z| ==> z[i] == 0
    ensures forall j :: 0 <= j < 8 * |z| ==> !AllBits(z)[j]
    decreases |z|
  {
    hide Bits;
    if z != [] {
      NoneSet(z[..|z| - 1]);
      forall k | 0 <= k < 8 ensures !Bits(0)[k] { NoBits(k); }
    }
  }

  /** The one bit of 0x01, the two of 0x21 and the one of 0x10. */
  lemma SlipBits(k: nat)
    requires k < 8
    ensures Bits(0x01)[k] <==> k == 7
    ensures Bits(0x21)[k] <==> k == 2 || k == 7
    ensures Bits(0x10)[k] <==> k == 3
  {
    hide Bits;
    BitAt(0x01, k);
    BitAt(0x21, k);
    BitAt(0x10, k);
  }

  lemma SlippedBits(m: nat)
    ensures Within(AllBits(seq(m, _ => 0) + [0x01, 0x21, 0x10]), 8 * m + 7, ANYWHERE + 1)
  {
    hide Bits, AllBits;
    var z: seq<byte> := seq(m, _ => 0);
    assert z + [0x01, 0x21, 0x10] == z + [0x01] + [0x21] + [0x10];
    AllBitsSplit(z, 0x01);
    AllBitsSplit(z + [0x01], 0x21);
    AllBitsSplit(z + [0x01] + [0x21], 0x10);
    NoneSet(z);
    var b := AllBits(z) + Bits(0x01) + Bits(0x21) + Bits(0x10);
    forall j | 0 <= j < 8 * m + 24
      ensures b[j] <==> j == 8 * m + 7 || j == 8 * m + 10 || j == 8 * m + 15 || j == 8 * m + 19
    {
      if j >= 8 * m { SlipBits((j - 8 * m) % 8); }
    }
  }

  /** Twelve is the limit: in every sealed frame some change within thirteen places goes unnoticed. */
  lemma ThirteenCanSlip(f: seq<byte>)
    requires Sealed(f) && |f| >= 3
    ensures |Slipped(f)| == |f| && Slipped(f) != f && Sealed(Slipped(f))
    ensures Within(AllBits(Difference(f, Slipped(f))), 8 * |f| - 17, ANYWHERE + 1)
  {
    hide CrcFrom, Xor, AllBits, Word, XorByte, Within, Difference, Slipped, CrcByte;
    SlipDifference(f);
    SlippedAlike(f);
    SlippedBits(|f| - 3);
  }
}
