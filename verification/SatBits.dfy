/** A byte as a number and as bits, the most significant bit first. */
module SatBits {
  import opened Bytes
  import SatCrc

  function Append(b: SatCrc.byte, bit: bool): SatCrc.byte { (b << 1) | (if bit then 1 else 0) }
  function Rest(b: SatCrc.byte): SatCrc.byte { b << 1 }
  predicate First(b: SatCrc.byte) { b & 0x80 != 0 }

  /** What the k-th bit from the end stands for. */
  function Weight(k: nat): nat { if k == 0 then 1 else Weight(k - 1) + Weight(k - 1) }

  /** `done`, with the `k` bits of `n` behind it. */
  function Binary(done: SatCrc.byte, n: nat, k: nat): SatCrc.byte
    decreases k
  {
    if k == 0 then done
    else if n >= Weight(k - 1) then Binary(Append(done, true), n - Weight(k - 1), k - 1)
    else Binary(Append(done, false), n, k - 1)
  }

  /** The number that the first `k` bits stand for. */
  function Number(b: SatCrc.byte, k: nat): (n: nat)
    ensures n < Weight(k)
    decreases k
  {
    if k == 0 then 0 else (if First(b) then Weight(k - 1) else 0) + Number(Rest(b), k - 1)
  }

  lemma EightBits()
    ensures Weight(8) == 256
  {
    assert Weight(4) == 16;
  }

  function RawByte(b: byte): SatCrc.byte { Binary(0, b, 8) }

  function ByteOf(b: SatCrc.byte): byte { EightBits(); Number(b, 8) }

  /** The first `k` bits of `b` moved over behind `done`. */
  function Moved(done: SatCrc.byte, b: SatCrc.byte, k: nat): SatCrc.byte
    decreases k
  {
    if k == 0 then done else Moved(Append(done, First(b)), Rest(b), k - 1)
  }

  lemma {:induction false} NumberBack(done: SatCrc.byte, b: SatCrc.byte, k: nat)
    ensures Binary(done, Number(b, k), k) == Moved(done, b, k)
    decreases k
  {
    hide Append, Rest, First;
    if k > 0 { NumberBack(Append(done, First(b)), Rest(b), k - 1); }
  }

  function FourOff(b: SatCrc.byte): SatCrc.byte { Rest(Rest(Rest(Rest(b)))) }

  function FourOn(done: SatCrc.byte, b: SatCrc.byte): SatCrc.byte {
    Append(Append(Append(Append(done, First(b)), First(Rest(b))), First(Rest(Rest(b)))), First(Rest(Rest(Rest(b)))))
  }

  lemma FourMoved(done: SatCrc.byte, b: SatCrc.byte, k: nat)
    ensures Moved(done, b, k + 4) == Moved(FourOn(done, b), FourOff(b), k)
  {
    hide Append, Rest, First;
    var b1, d1 := Rest(b), Append(done, First(b));
    var b2, d2 := Rest(b1), Append(d1, First(b1));
    var b3, d3 := Rest(b2), Append(d2, First(b2));
    assert Moved(done, b, k + 4) == Moved(d1, b1, k + 3);
    assert Moved(d1, b1, k + 3) == Moved(d2, b2, k + 2);
    assert Moved(d2, b2, k + 2) == Moved(d3, b3, k + 1);
    assert Moved(d3, b3, k + 1) == Moved(Append(d3, First(b3)), Rest(b3), k);
  }

  lemma AllMoved(b: SatCrc.byte)
    ensures FourOn(FourOn(0, b), FourOff(b)) == b
  {
  }

  lemma ByteBack(b: SatCrc.byte)
    ensures RawByte(ByteOf(b)) == b
  {
    hide Binary, Number, FourOn, FourOff;
    NumberBack(0, b, 8);
    FourMoved(0, b, 4);
    FourMoved(FourOn(0, b), FourOff(b), 0);
    AllMoved(b);
  }
}
