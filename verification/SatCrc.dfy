/** The CRC of the satellite protocol and what it is guaranteed to notice. */
module SatCrc {

  type byte = bv8

  // The operations on the register, by name.
  predicate Top(x: bv16) { x & 0x8000 != 0 }
  function Twice(x: bv16): bv16 { x << 1 }
  function Mixed(x: bv16): bv16 { x ^ 0x1021 }
  function Xor(x: bv16, y: bv16): bv16 { x ^ y }
  function XorByte(a: byte, b: byte): byte { a ^ b }
  function High(b: byte): bv16 { (b as bv16) << 8 }

  /** One round of the inner loop of `sat_crc16`. */
  function Shift(crc: bv16): bv16 {
    if Top(crc) then Mixed(Twice(crc)) else Twice(crc)
  }

  function Shifts(crc: bv16, n: nat): bv16 {
    if n == 0 then crc else Shift(Shifts(crc, n - 1))
  }

  function CrcByte(crc: bv16, b: byte): bv16 {
    Shifts(Xor(crc, High(b)), 8)
  }

  /** The register after `data`, starting from `crc`. */
  function CrcFrom(crc: bv16, data: seq<byte>): bv16 {
    if data == [] then crc else CrcByte(CrcFrom(crc, data[..|data| - 1]), data[|data| - 1])
  }

  function Crc(data: seq<byte>): bv16 { CrcFrom(0xFFFF, data) }

  /** The body of the outer loop of `sat_crc16`. */
  method MixByte(before: bv16, b: byte) returns (crc: bv16)
    ensures crc == CrcByte(before, b)
  {
    hide Shift, Xor, High;
    crc := Mix(before, b);
    for j := 0 to 8
      invariant crc == Shifts(Xor(before, High(b)), j)
    {
      crc := ShiftOnce(crc);
    }
  }

  method Mix(before: bv16, b: byte) returns (crc: bv16)
    ensures crc == Xor(before, High(b))
  {
    hide *;
    MixIs(before, b);
    crc := before ^ ((b as bv16) << 8);
  }

  lemma MixIs(before: bv16, b: byte)
    ensures Xor(before, High(b)) == before ^ ((b as bv16) << 8)
  {
  }

  /** The body of the inner loop. */
  method ShiftOnce(before: bv16) returns (crc: bv16)
    ensures crc == Shift(before)
  {
    if before & 0x8000 != 0 {
      crc := (before << 1) ^ 0x1021;
    } else {
      crc := before << 1;
    }
  }

  // ---- the register is linear ----

  lemma TopLinear(x: bv16, y: bv16)
    ensures Top(Xor(x, y)) == (Top(x) != Top(y))
  {
  }

  lemma TwiceLinear(x: bv16, y: bv16)
    ensures Twice(Xor(x, y)) == Xor(Twice(x), Twice(y))
  {
  }

  lemma MixedLeft(x: bv16, y: bv16)
    ensures Xor(Mixed(x), y) == Mixed(Xor(x, y))
  {
  }

  lemma MixedTwice(x: bv16)
    ensures Mixed(Mixed(x)) == x
  {
  }

  lemma XorSymmetric(x: bv16, y: bv16)
    ensures Xor(x, y) == Xor(y, x)
  {
  }

  lemma XorAssociative(x: bv16, y: bv16, z: bv16)
    ensures Xor(Xor(x, y), z) == Xor(x, Xor(y, z))
  {
  }

  lemma MixedXor(x: bv16, y: bv16)
    ensures Xor(Mixed(x), y) == Mixed(Xor(x, y)) && Xor(x, Mixed(y)) == Mixed(Xor(x, y)) && Mixed(Mixed(x)) == x
  {
    hide Xor, Mixed;
    MixedLeft(x, y);
    MixedLeft(y, x);
    XorSymmetric(x, y);
    XorSymmetric(x, Mixed(y));
    MixedTwice(x);
  }

  lemma XorShuffle(a: bv16, b: bv16, c: bv16, d: bv16)
    ensures Xor(Xor(a, b), Xor(c, d)) == Xor(Xor(a, c), Xor(b, d))
  {
    hide Xor;
    XorAssociative(Xor(a, b), c, d);
    XorAssociative(a, b, c);
    XorSymmetric(b, c);
    XorAssociative(a, c, b);
    XorAssociative(Xor(a, c), b, d);
  }

  lemma HighXor(a: byte, b: byte)
    ensures Xor(High(a), High(b)) == High(XorByte(a, b))
  {
  }

  lemma ShiftLinear(x: bv16, y: bv16)
    ensures Xor(Shift(x), Shift(y)) == Shift(Xor(x, y))
  {
    hide Top, Twice, Mixed, Xor;
    TopLinear(x, y);
    TwiceLinear(x, y);
    MixedXor(Twice(x), Twice(y));
    MixedXor(Twice(x), Mixed(Twice(y)));
    MixedXor(Xor(Twice(x), Twice(y)), Twice(y));
  }

  lemma {:induction false} ShiftsLinear(x: bv16, y: bv16, n: nat)
    ensures Xor(Shifts(x, n), Shifts(y, n)) == Shifts(Xor(x, y), n)
  {
    hide Shift, Xor;
    if n > 0 {
      ShiftsLinear(x, y, n - 1);
      ShiftLinear(Shifts(x, n - 1), Shifts(y, n - 1));
    }
  }

  lemma CrcByteLinear(x: bv16, y: bv16, a: byte, b: byte)
    ensures Xor(CrcByte(x, a), CrcByte(y, b)) == CrcByte(Xor(x, y), XorByte(a, b))
  {
    hide Shifts, Xor, High, XorByte;
    ShiftsLinear(Xor(x, High(a)), Xor(y, High(b)), 8);
    XorShuffle(x, High(a), y, High(b));
    HighXor(a, b);
  }

  /** The bytes in which two messages of the same length differ, as bit patterns. */
  function Difference(s: seq<byte>, t: seq<byte>): (d: seq<byte>)
    requires |s| == |t|
    ensures |d| == |s|
  {
    seq(|s|, i requires 0 <= i < |s| => XorByte(s[i], t[i]))
  }

  /** The registers of two messages differ by the register of their difference. */
  lemma {:induction false} CrcOfDifference(x: bv16, y: bv16, s: seq<byte>, t: seq<byte>)
    requires |s| == |t|
    ensures Xor(CrcFrom(x, s), CrcFrom(y, t)) == CrcFrom(Xor(x, y), Difference(s, t))
    decreases |s|
  {
    hide Xor, CrcByte, XorByte;
    if s == [] {
      assert t == [] && Difference(s, t) == [];
    } else {
      var m := |s| - 1;
      var d := Difference(s, t);
      CrcOfDifference(x, y, s[..m], t[..m]);
      assert d[..m] == Difference(s[..m], t[..m]);
      CrcByteLinear(CrcFrom(x, s[..m]), CrcFrom(y, t[..m]), s[m], t[m]);
    }
  }

  // ---- one message bit at a time ----

  /** The register after one more message bit: the polynomial is added when bit and top bit differ. */
  function Step(crc: bv16, bit: bool): bv16 {
    if Top(crc) != bit then Mixed(Twice(crc)) else Twice(crc)
  }

  function Feed(crc: bv16, bits: seq<bool>): bv16 {
    if bits == [] then crc else Step(Feed(crc, bits[..|bits| - 1]), bits[|bits| - 1])
  }

  predicate TopBit(b: byte) { b & 0x80 != 0 }
  function TwiceByte(b: byte): byte { b << 1 }

  /** The leading `n` bits of a byte, most significant first. */
  function Leading(b: byte, n: nat): (r: seq<bool>)
    ensures |r| == n
    decreases n
  {
    if n == 0 then [] else [TopBit(b)] + Leading(TwiceByte(b), n - 1)
  }

  function Bits(b: byte): (r: seq<bool>)
    ensures |r| == 8
  {
    Leading(b, 8)
  }

  function AllBits(s: seq<byte>): (r: seq<bool>)
    ensures |r| == 8 * |s|
  {
    if s == [] then [] else AllBits(s[..|s| - 1]) + Bits(s[|s| - 1])
  }

  lemma {:induction false} FeedAppend(crc: bv16, a: seq<bool>, b: seq<bool>)
    ensures Feed(crc, a + b) == Feed(Feed(crc, a), b)
    decreases |b|
  {
    hide Step;
    if b == [] {
      assert a + b == a;
    } else {
      assert (a + b)[..|a + b| - 1] == a + b[..|b| - 1];
      FeedAppend(crc, a, b[..|b| - 1]);
    }
  }

  /** Taking one bit of the byte mixed into the register is feeding that bit. */
  lemma BitOfByte(crc: bv16, b: byte)
    ensures Shift(Xor(crc, High(b))) == Xor(Step(crc, TopBit(b)), High(TwiceByte(b)))
  {
    hide Top, Twice, Mixed, Xor, High, TopBit, TwiceByte;
    TopOfMixed(crc, b);
    TwiceOfMixed(crc, b);
    MixedXor(Twice(crc), High(TwiceByte(b)));
  }

  lemma TopOfMixed(crc: bv16, b: byte)
    ensures Top(Xor(crc, High(b))) == (Top(crc) != TopBit(b))
  {
  }

  lemma TwiceOfMixed(crc: bv16, b: byte)
    ensures Twice(Xor(crc, High(b))) == Xor(Twice(crc), High(TwiceByte(b)))
  {
  }

  /** What is left of a byte after `n` bits. */
  function After(b: byte, n: nat): byte
    decreases n
  {
    if n == 0 then b else After(TwiceByte(b), n - 1)
  }

  lemma {:induction false} ShiftsAreSteps(crc: bv16, b: byte, n: nat)
    ensures Shifts(Xor(crc, High(b)), n) == Xor(Feed(crc, Leading(b, n)), High(After(b, n)))
    decreases n
  {
    hide Shift, Xor, High, Step, TopBit, TwiceByte;
    if n > 0 {
      var c := Step(crc, TopBit(b));
      BitOfByte(crc, b);
      ShiftsFromFront(Xor(crc, High(b)), n);
      ShiftsAreSteps(c, TwiceByte(b), n - 1);
      FeedAppend(crc, [TopBit(b)], Leading(TwiceByte(b), n - 1));
      assert [TopBit(b)][..0] == [];
      assert Feed(crc, [TopBit(b)]) == c;
    }
  }

  lemma {:induction false} ShiftsFromFront(x: bv16, n: nat)
    requires n > 0
    ensures Shifts(x, n) == Shifts(Shift(x), n - 1)
  {
    hide Shift;
    if n > 1 { ShiftsFromFront(x, n - 1); }
  }

  lemma {:induction false} AfterTwice(b: byte, m: nat, n: nat)
    ensures After(b, m + n) == After(After(b, m), n)
    decreases m
  {
    hide TwiceByte;
    if m > 0 { AfterTwice(TwiceByte(b), m - 1, n); }
  }

  lemma AllShiftedOut(b: byte)
    ensures TwiceByte(TwiceByte(TwiceByte(TwiceByte(TwiceByte(TwiceByte(TwiceByte(TwiceByte(b)))))))) == 0
  {
  }

  lemma NothingLeft(b: byte, x: bv16)
    ensures Xor(x, High(After(b, 8))) == x
  {
    var b4 := After(b, 4);
    assert b4 == TwiceByte(TwiceByte(TwiceByte(TwiceByte(b))));
    AfterTwice(b, 4, 4);
    assert After(b4, 4) == TwiceByte(TwiceByte(TwiceByte(TwiceByte(b4))));
    AllShiftedOut(b);
  }

  /** Mixing in a byte and shifting eight times is feeding its eight bits. */
  lemma ByteIsBits(crc: bv16, b: byte)
    ensures CrcByte(crc, b) == Feed(crc, Bits(b))
  {
    hide Shifts, Xor, High, Feed, Leading, After;
    ShiftsAreSteps(crc, b, 8);
    NothingLeft(b, Feed(crc, Leading(b, 8)));
  }

  lemma {:induction false} CrcIsFeed(crc: bv16, s: seq<byte>)
    ensures CrcFrom(crc, s) == Feed(crc, AllBits(s))
    decreases |s|
  {
    hide CrcByte, Bits;
    if s != [] {
      var m := |s| - 1;
      CrcIsFeed(crc, s[..m]);
      ByteIsBits(CrcFrom(crc, s[..m]), s[m]);
      FeedAppend(crc, AllBits(s[..m]), Bits(s[m]));
    }
  }

  // ---- bursts ----

  /** The lowest `k + 1` bits of the register. */
  function Mask(k: nat): bv16 {
    if k == 0 then 1 else (Mask(k - 1) << 1) | 1
  }

  lemma MaskRoom(k: nat)
    requires k < 15
    ensures Mask(k) & 0x8000 == 0
  {
    assert Mask(3) == 0xF;
    assert Mask(6) == 0x7F;
    assert Mask(9) == 0x3FF;
    assert Mask(12) == 0x1FFF;
    assert Mask(14) == 0x7FFF;
    assert Mask(2) == 7 && Mask(1) == 3 && Mask(5) == 0x3F && Mask(4) == 0x1F && Mask(8) == 0x1FF && Mask(7) == 0xFF;
    assert Mask(11) == 0xFFF && Mask(10) == 0x7FF && Mask(13) == 0x3FFF;
    assert k == 0 || k == 1 || k == 2 || k == 3 || k == 4 || k == 5 || k == 6 || k == 7 ||
           k == 8 || k == 9 || k == 10 || k == 11 || k == 12 || k == 13 || k == 14;
  }

  /** A bit among the lowest moves up by at most one place, or the polynomial sets the lowest. */
  lemma LowBitsStay(s: bv16, m: bv16, b: bool)
    requires s & m != 0 && m & 0x8000 == 0
    ensures Step(s, b) & ((m << 1) | 1) != 0
  {
    hide Step;
    MovesUp(s, m);
    MovesUpMixed(s, m);
    StepIs(s, b);
  }

  lemma StepIs(s: bv16, b: bool)
    ensures Step(s, b) == (s << 1) ^ 0x1021 || Step(s, b) == s << 1
  {
  }

  lemma MovesUp(s: bv16, m: bv16)
    requires s & m != 0 && m & 0x8000 == 0
    ensures (s << 1) & ((m << 1) | 1) != 0
  {
  }

  lemma MovesUpMixed(s: bv16, m: bv16)
    requires s & m != 0 && m & 0x8000 == 0
    ensures ((s << 1) ^ 0x1021) & ((m << 1) | 1) != 0
  {
  }

  /** Some bit among the lowest `k + 1` is set. */
  predicate LowBit(s: bv16, k: nat) { s & Mask(k) != 0 }

  lemma LowBitStays(s: bv16, k: nat, b: bool)
    requires LowBit(s, k) && k < 15
    ensures LowBit(Step(s, b), k + 1)
  {
    hide Step, Mask;
    MaskRoom(k);
    MaskNext(k);
    LowBitsStay(s, Mask(k), b);
  }

  lemma MaskNext(k: nat)
    ensures Mask(k + 1) == (Mask(k) << 1) | 1
  {
  }

  lemma {:induction false} LowBitsRemain(s: bv16, k: nat, bits: seq<bool>)
    requires LowBit(s, k) && k + |bits| <= 15
    ensures LowBit(Feed(s, bits), k + |bits|)
    decreases |bits|
  {
    hide Step, LowBit;
    if bits != [] {
      var m := |bits| - 1;
      LowBitsRemain(s, k, bits[..m]);
      LowBitStays(Feed(s, bits[..m]), k + m, bits[m]);
    }
  }

  lemma StepInvertible(s: bv16)
    requires s != 0
    ensures Step(s, false) != 0
  {
    if Top(s) {
      assert (s << 1) ^ 0x1021 != 0;
    } else {
      assert s & 0x8000 == 0 ==> s << 1 != 0;
    }
  }

  lemma {:induction false} ZerosKeep(s: bv16, bits: seq<bool>)
    requires forall j :: 0 <= j < |bits| ==> !bits[j]
    ensures s == 0 ==> Feed(s, bits) == 0
    ensures s != 0 ==> Feed(s, bits) != 0
    decreases |bits|
  {
    if bits != [] {
      var m := |bits| - 1;
      ZerosKeep(s, bits[..m]);
      assert Step(0, false) == 0;
      if s != 0 { StepInvertible(Feed(s, bits[..m])); }
    }
  }

  /** All bits set in `bits` lie within `width` places, the first of them at `i`. */
  predicate Within(bits: seq<bool>, i: nat, width: nat) {
    i < |bits| && bits[i] && forall j :: 0 <= j < |bits| && bits[j] ==> i <= j < i + width
  }

  predicate Burst(bits: seq<bool>, i: nat) { Within(bits, i, 16) }

  lemma BurstLeavesTrace(bits: seq<bool>, i: nat)
    requires Burst(bits, i)
    ensures Feed(0, bits) != 0
  {
    hide Feed, LowBit, Step;
    var e := if i + 16 < |bits| then i + 16 else |bits|;
    var before, first, mid, rest := bits[..i], [bits[i]], bits[i + 1..e], bits[e..];
    assert bits == before + (first + (mid + rest));
    FeedAppend(0, before, first + (mid + rest));
    ZerosKeep(0, before);
    FeedAppend(0, first, mid + rest);
    FirstBit();
    FeedAppend(Feed(0, first), mid, rest);
    LowBitsRemain(Feed(0, first), 0, mid);
    LowBitShows(Feed(Feed(0, first), mid), |mid|);
    ZerosKeep(Feed(Feed(0, first), mid), rest);
  }

  lemma LowBitShows(s: bv16, k: nat)
    requires LowBit(s, k)
    ensures s != 0
  {
    hide Mask;
  }

  lemma FirstBit()
    ensures LowBit(Feed(0, [true]), 0)
  {
    assert [true][..0] == [];
    assert Feed(0, [true]) == Step(0, true) == 0x1021;
  }

  // ---- odd numbers of errors ----

  function Odd(bits: seq<bool>): bool {
    if bits == [] then false else Odd(bits[..|bits| - 1]) != bits[|bits| - 1]
  }

  lemma {:induction false} OddAppend(a: seq<bool>, b: seq<bool>)
    ensures Odd(a + b) == (Odd(a) != Odd(b))
    decreases |b|
  {
    if b == [] {
      assert a + b == a;
    } else {
      assert (a + b)[..|a + b| - 1] == a + b[..|b| - 1];
      OddAppend(a, b[..|b| - 1]);
    }
  }

  /** Parity of the leading `n` bits of a register. */
  predicate ParityOf(s: bv16, n: nat)
    decreases n
  {
    n > 0 && Top(s) != ParityOf(Twice(s), n - 1)
  }

  predicate Parity(s: bv16) { ParityOf(s, 16) }

  lemma {:induction false} ParityLinear(x: bv16, y: bv16, n: nat)
    ensures ParityOf(Xor(x, y), n) == (ParityOf(x, n) != ParityOf(y, n))
    decreases n
  {
    hide Top, Twice, Xor;
    if n > 0 {
      TopLinear(x, y);
      TwiceLinear(x, y);
      ParityLinear(Twice(x), Twice(y), n - 1);
    }
  }

  function Shifted(s: bv16, n: nat): bv16
    decreases n
  {
    if n == 0 then s else Shifted(Twice(s), n - 1)
  }

  lemma {:induction false} ShiftedMore(s: bv16, m: nat, n: nat)
    ensures Shifted(s, m + n) == Shifted(Shifted(s, m), n)
    decreases m
  {
    hide Twice;
    if m > 0 { ShiftedMore(Twice(s), m - 1, n); }
  }

  lemma {:induction false} ParitySplit(s: bv16, m: nat, n: nat)
    ensures ParityOf(s, m + n) == (ParityOf(s, m) != ParityOf(Shifted(s, m), n))
    decreases m
  {
    hide Twice, Top;
    if m > 0 { ParitySplit(Twice(s), m - 1, n); }
  }

  lemma FourShifts(s: bv16)
    ensures Shifted(s, 4) == s << 4
  {
    var a := Twice(Twice(s));
    assert Shifted(s, 4) == Shifted(a, 2) == Twice(Twice(a));
  }

  lemma EightShifts(s: bv16)
    ensures Shifted(s, 8) == s << 8
  {
    hide Shifted;
    ShiftedMore(s, 4, 4);
    FourShifts(s);
    FourShifts(s << 4);
  }

  lemma SixteenShifts(s: bv16)
    ensures Shifted(s, 16) == 0
  {
    hide Shifted;
    ShiftedMore(s, 8, 8);
    EightShifts(s);
    EightShifts(s << 8);
  }

  lemma ZeroStays()
    ensures Top(0) == false && Twice(0) == 0
  {
  }

  lemma ParityOfTwice(s: bv16)
    ensures Parity(Twice(s)) == (Parity(s) != Top(s))
  {
    hide Top, Twice;
    ZeroStays();
    ParitySplit(s, 16, 1);
    SixteenShifts(s);
    assert ParityOf(0, 1) == false;
    assert ParityOf(s, 17) == (Top(s) != ParityOf(Twice(s), 16));
  }

  lemma ParityOfPolynomial()
    ensures Parity(0x1021)
  {
    assert ParityOf(0x8000, 1) && ParityOf(0x4000, 2) && ParityOf(0x2000, 3);
    assert ParityOf(0x1000, 4) && ParityOf(0x0800, 5);
    assert !ParityOf(0x8400, 6) && !ParityOf(0x4200, 7);
    assert !ParityOf(0x2100, 8) && !ParityOf(0x1080, 9);
    assert !ParityOf(0x0840, 10) && !ParityOf(0x0420, 11);
    assert !ParityOf(0x0210, 12) && ParityOf(0x8108, 13);
    assert ParityOf(0x4084, 14) && ParityOf(0x2042, 15);
  }

  lemma ParityOfMixed(s: bv16)
    ensures Parity(Mixed(s)) == !Parity(s)
  {
    hide ParityOf, Top, Twice;
    assert Mixed(s) == Xor(s, 0x1021);
    ParityLinear(s, 0x1021, 16);
    ParityOfPolynomial();
  }

  /** The polynomial has an even number of terms, so every step keeps the parity of register and bits together. */
  lemma {:induction false} FeedParity(s: bv16, bits: seq<bool>)
    ensures Parity(Feed(s, bits)) == (Parity(s) != Odd(bits))
    decreases |bits|
  {
    hide Parity, Top, Twice, Mixed;
    if bits != [] {
      var m := |bits| - 1;
      FeedParity(s, bits[..m]);
      ParityOfTwice(Feed(s, bits[..m]));
      ParityOfMixed(Twice(Feed(s, bits[..m])));
    }
  }

  /** A little-endian 16-bit word. */
  function Word(lo: byte, hi: byte): bv16 { (lo as bv16) | ((hi as bv16) << 8) }

  lemma WordXor(lo: byte, hi: byte, lo': byte, hi': byte)
    ensures Xor(Word(lo, hi), Word(lo', hi')) == Word(XorByte(lo, lo'), XorByte(hi, hi'))
  {
  }

  /** The bits of a byte in the high half are the leading bits of the register. */
  lemma {:induction false} ParityOfHigh(b: byte, n: nat)
    ensures ParityOf(High(b), n) == Odd(Leading(b, n))
    decreases n
  {
    hide Top, Twice, High, TopBit, TwiceByte;
    if n > 0 {
      HighLeads(b);
      ParityOfHigh(TwiceByte(b), n - 1);
      OddAppend([TopBit(b)], Leading(TwiceByte(b), n - 1));
      assert [TopBit(b)][..0] == [];
      assert Odd([TopBit(b)]) == TopBit(b);
    }
  }

  lemma HighLeads(b: byte)
    ensures Top(High(b)) == TopBit(b) && Twice(High(b)) == High(TwiceByte(b))
  {
  }

  lemma HighParity(b: byte)
    ensures Parity(High(b)) == Odd(Bits(b))
  {
    hide ParityOf, Odd, Leading;
    ParitySplit(High(b), 8, 8);
    EightShifts(High(b));
    assert High(b) << 8 == 0;
    NoParity(8);
    ParityOfHigh(b, 8);
  }

  lemma {:induction false} NoParity(n: nat)
    ensures !ParityOf(0, n)
  {
    ZeroStays();
    hide Top, Twice;
    if n > 0 { NoParity(n - 1); }
  }

  lemma EmptyHalf(x: bv16)
    requires x & 0xFF00 == 0
    ensures !Top(x) && Twice(x) & 0xFE00 == 0
    ensures !Top(x << 1) && !Top(x << 2) && !Top(x << 3) && !Top(x << 4)
    ensures !Top(x << 5) && !Top(x << 6) && !Top(x << 7)
  {
  }

  lemma TwiceShifted(x: bv16)
    ensures Twice(x) == x << 1 && Twice(x << 1) == x << 2 && Twice(x << 2) == x << 3 && Twice(x << 3) == x << 4
    ensures Twice(x << 4) == x << 5 && Twice(x << 5) == x << 6 && Twice(x << 6) == x << 7
  {
  }

  lemma EmptyHalfParity(x: bv16)
    requires x & 0xFF00 == 0
    ensures !ParityOf(x, 8)
  {
    EmptyHalf(x);
    TwiceShifted(x);
    hide Top, Twice;
    assert !ParityOf(x << 7, 1) && !ParityOf(x << 6, 2) && !ParityOf(x << 5, 3) && !ParityOf(x << 4, 4);
    assert !ParityOf(x << 3, 5) && !ParityOf(x << 2, 6) && !ParityOf(x << 1, 7);
  }

  lemma LowParity(b: byte)
    ensures Parity(b as bv16) == Odd(Bits(b))
  {
    hide ParityOf, Odd, Leading;
    ParitySplit(b as bv16, 8, 8);
    EightShifts(b as bv16);
    assert (b as bv16) & 0xFF00 == 0;
    EmptyHalfParity(b as bv16);
    ParityOfHigh(b, 8);
  }

  lemma WordIsSum(lo: byte, hi: byte)
    ensures Word(lo, hi) == Xor(lo as bv16, High(hi))
  {
  }

  lemma ParityOfWord(lo: byte, hi: byte)
    ensures Parity(Word(lo, hi)) == (Odd(Bits(lo)) != Odd(Bits(hi)))
  {
    hide ParityOf, Odd, Leading, Word, Xor, High, Bits;
    WordIsSum(lo, hi);
    HighParity(hi);
    LowParity(lo);
    ParityLinear(lo as bv16, High(hi), 16);
  }

  // ---- what a receiver notices ----

  /** The trailer is the CRC of everything in front of it, low byte first. */
  predicate Sealed(f: seq<byte>) {
    |f| >= 2 && Word(f[|f| - 2], f[|f| - 1]) == Crc(f[..|f| - 2])
  }

  /** Any burst of at most 16 bits in the bytes the CRC covers is noticed. */
  lemma BurstNoticed(f: seq<byte>, g: seq<byte>, i: nat)
    requires Sealed(f) && |g| == |f| && g[|f| - 2..] == f[|f| - 2..]
    requires Burst(AllBits(Difference(f[..|f| - 2], g[..|f| - 2])), i)
    ensures !Sealed(g)
  {
    hide Feed, CrcByte, Xor, AllBits, Word, CrcFrom, XorByte;
    var n := |f| - 2;
    var d := Difference(f[..n], g[..n]);
    CrcOfDifference(0xFFFF, 0xFFFF, f[..n], g[..n]);
    SelfXor(0xFFFF);
    CrcIsFeed(0, d);
    BurstLeavesTrace(AllBits(d), i);
    SelfXor(Crc(f[..n]));
    assert g[n] == g[n..][0] == f[n..][0] == f[n] && g[n + 1] == g[n..][1] == f[n..][1] == f[n + 1];
  }

  lemma SelfXor(x: bv16)
    ensures Xor(x, x) == 0
  {
  }

  /** The parity of the change in the register is the parity of the change in the message. */
  lemma CoveredParity(s: seq<byte>, t: seq<byte>)
    requires |s| == |t|
    ensures Parity(Xor(Crc(s), Crc(t))) == Odd(AllBits(Difference(s, t)))
  {
    hide Feed, Xor, AllBits, CrcFrom, Parity, Odd, Difference, XorByte;
    CrcOfDifference(0xFFFF, 0xFFFF, s, t);
    SelfXor(0xFFFF);
    CrcIsFeed(0, Difference(s, t));
    FeedParity(0, AllBits(Difference(s, t)));
    ZeroParity();
  }

  lemma TrailerParity(lo: byte, hi: byte, lo': byte, hi': byte)
    ensures Parity(Xor(Word(lo, hi), Word(lo', hi'))) == (Odd(Bits(XorByte(lo, lo'))) != Odd(Bits(XorByte(hi, hi'))))
  {
    hide Xor, Parity, Odd, Bits, Word, XorByte;
    WordXor(lo, hi, lo', hi');
    ParityOfWord(XorByte(lo, lo'), XorByte(hi, hi'));
  }

  /** Any odd number of flipped bits, in the covered bytes and the trailer together, is noticed. */
  lemma OddNoticed(f: seq<byte>, g: seq<byte>)
    requires Sealed(f) && |g| == |f| && Odd(AllBits(Difference(f, g)))
    ensures !Sealed(g)
  {
    hide Crc, Xor, AllBits, Word, Parity, Odd, Bits, Difference, XorByte;
    var n := |f| - 2;
    SplitDifference(f, g);
    CoveredParity(f[..n], g[..n]);
    TrailerParity(f[n], f[n + 1], g[n], g[n + 1]);
    var d, lo, hi := AllBits(Difference(f[..n], g[..n])), Bits(XorByte(f[n], g[n])), Bits(XorByte(f[n + 1], g[n + 1]));
    OddAppend(d, lo + hi);
    OddAppend(lo, hi);
  }

  lemma ZeroParity()
    ensures !Parity(0)
  {
    NoParity(16);
  }

  lemma SplitDifference(f: seq<byte>, g: seq<byte>)
    requires |f| == |g| >= 2
    ensures var n := |f| - 2;
      AllBits(Difference(f, g)) ==
      AllBits(Difference(f[..n], g[..n])) + (Bits(XorByte(f[n], g[n])) + Bits(XorByte(f[n + 1], g[n + 1])))
  {
    hide Bits, XorByte;
    var n := |f| - 2;
    var d := Difference(f, g);
    assert d[..n + 1][..n] == Difference(f[..n], g[..n]);
    assert AllBits(d) == AllBits(d[..n + 1]) + Bits(d[n + 1]);
    assert AllBits(d[..n + 1]) == AllBits(d[..n + 1][..n]) + Bits(d[..n + 1][n]);
  }

  lemma {:induction false} CrcAppend(crc: bv16, s: seq<byte>, t: seq<byte>)
    ensures CrcFrom(crc, s + t) == CrcFrom(CrcFrom(crc, s), t)
    decreases |t|
  {
    hide CrcByte;
    if t == [] {
      assert s + t == s;
    } else {
      assert (s + t)[..|s + t| - 1] == s + t[..|t| - 1];
      CrcAppend(crc, s, t[..|t| - 1]);
    }
  }

  lemma {:induction false} CrcOfZeros(n: nat)
    ensures CrcFrom(0, seq(n, _ => 0)) == 0
  {
    if n > 0 {
      var s := seq(n, _ => 0 as byte);
      assert s[..n - 1] == seq(n - 1, _ => 0 as byte);
      CrcOfZeros(n - 1);
      assert Xor(0, High(0)) == 0;
      ShiftsOfZero(8);
    }
  }

  lemma {:induction false} ShiftsOfZero(n: nat)
    ensures Shifts(0, n) == 0
  {
    ZeroStays();
    hide Top, Twice;
    if n > 0 { ShiftsOfZero(n - 1); }
  }

  lemma FirstPatternByte()
    ensures CrcByte(0, 0x88) == 0x1080
  {
    assert Xor(0, High(0x88)) == 0x8800;
    assert Shift(0x8800) == 0x0021 && Shift(0x0021) == 0x0042 && Shift(0x0042) == 0x0084 && Shift(0x0084) == 0x0108;
    assert Shift(0x0108) == 0x0210 && Shift(0x0210) == 0x0420 && Shift(0x0420) == 0x0840 && Shift(0x0840) == 0x1080;
    assert Shifts(0x8800, 2) == 0x0042;
    assert Shifts(0x8800, 4) == 0x0108;
    assert Shifts(0x8800, 6) == 0x0420;
  }

  lemma SecondPatternByte()
    ensures CrcByte(0x1080, 0x10) == 0x8000
  {
    assert Xor(0x1080, High(0x10)) == 0x0080;
    assert Shift(0x0080) == 0x0100 && Shift(0x0100) == 0x0200 && Shift(0x0200) == 0x0400 && Shift(0x0400) == 0x0800;
    assert Shift(0x0800) == 0x1000 && Shift(0x1000) == 0x2000 && Shift(0x2000) == 0x4000 && Shift(0x4000) == 0x8000;
    hide Shift, Xor, High;
    assert Shifts(0x0080, 2) == 0x0200;
    assert Shifts(0x0080, 4) == 0x0800;
    assert Shifts(0x0080, 6) == 0x2000;
  }

  lemma ThirdPatternByte()
    ensures CrcByte(0x8000, 0x80) == 0
  {
    assert Xor(0x8000, High(0x80)) == 0;
    ShiftsOfZero(8);
  }

  /** The polynomial itself, x^16 + x^12 + x^5 + 1, as message bits. */
  function Pattern(): seq<byte> { [0x88, 0x10, 0x80] }

  lemma PatternVanishes()
    ensures CrcFrom(0, Pattern()) == 0
  {
    hide CrcByte;
    FirstPatternByte();
    SecondPatternByte();
    ThirdPatternByte();
    var p := Pattern();
    assert p[..2] == [0x88, 0x10] && p[..2][..1] == [0x88] && p[..1] == [0x88] && p[..1][..0] == [];
    assert CrcFrom(0, p[..1]) == 0x1080;
    assert CrcFrom(0, p[..2]) == 0x8000;
  }

  /** `f` with the polynomial laid over the three bytes from `at`. */
  function Overlaid(f: seq<byte>, at: nat): seq<byte>
    requires at + 3 <= |f|
  {
    f[..at] + [XorByte(f[at], 0x88), XorByte(f[at + 1], 0x10), XorByte(f[at + 2], 0x80)] + f[at + 3..]
  }

  lemma OverlayDifference(s: seq<byte>, at: nat)
    requires at + 3 <= |s|
    ensures Difference(s, Overlaid(s, at)) == (seq(at, _ => 0) + Pattern()) + seq(|s| - at - 3, _ => 0)
  {
    hide XorByte;
    ByteXor(s[at], 0x88);
    ByteXor(s[at + 1], 0x10);
    ByteXor(s[at + 2], 0x80);
    var d := Difference(s, Overlaid(s, at));
    var r := (seq(at, _ => 0 as byte) + Pattern()) + seq(|s| - at - 3, _ => 0 as byte);
    forall j | 0 <= j < |s| ensures d[j] == r[j] {
      ByteXor(s[j], 0);
    }
  }

  lemma ByteXor(x: byte, y: byte)
    ensures XorByte(x, XorByte(x, y)) == y && XorByte(x, x) == 0 && (y != 0 ==> XorByte(x, y) != x)
  {
  }

  lemma OverlayVanishes(s: seq<byte>, at: nat)
    requires at + 3 <= |s|
    ensures Crc(Overlaid(s, at)) == Crc(s)
  {
    hide CrcFrom, Xor, Difference, Pattern, Overlaid, XorByte;
    var before, after: seq<byte> := seq(at, _ => 0), seq(|s| - at - 3, _ => 0);
    OverlaidLength(s, at);
    OverlayDifference(s, at);
    CrcOfDifference(0xFFFF, 0xFFFF, s, Overlaid(s, at));
    SelfXor(0xFFFF);
    CrcAppend(0, before + Pattern(), after);
    CrcAppend(0, before, Pattern());
    CrcOfZeros(at);
    CrcOfZeros(|s| - at - 3);
    PatternVanishes();
    XorZero(Crc(s), Crc(Overlaid(s, at)));
  }

  lemma OverlaidLength(s: seq<byte>, at: nat)
    requires at + 3 <= |s|
    ensures |Overlaid(s, at)| == |s|
  {
  }

  lemma XorZero(x: bv16, y: bv16)
    requires Xor(x, y) == 0
    ensures x == y
  {
  }

  /**
   * In front of the trailer sixteen is the limit: laid over a message, the polynomial is a burst of 17 bits and goes
   * unnoticed.
   */
  lemma SeventeenCanSlip(f: seq<byte>, at: nat)
    requires Sealed(f) && at + 5 <= |f|
    ensures Overlaid(f, at) != f && Sealed(Overlaid(f, at))
  {
    hide CrcFrom, Word, XorByte;
    var g, n := Overlaid(f, at), |f| - 2;
    OverlayVanishes(f[..n], at);
    assert g[..n] == Overlaid(f[..n], at);
    ByteXor(f[at], 0x88);
    assert g[at] == XorByte(f[at], 0x88);
  }
}
