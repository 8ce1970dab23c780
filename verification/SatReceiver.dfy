/** The receiver's byte-at-a-time automaton, and what it delivers from any stream of bytes. */
module SatReceiver {
  import opened Bytes
  import opened SatProtocol

  datatype Phase = Sync | InHeader | InPayload | InTrailer

  /** The receiver's static variables: state, fill position, frame buffer and the last header taken from it. */
  datatype Rx = Rx(phase: Phase, pos: nat, buf: bytes, header: Header)

  predicate Valid(r: Rx) {
    && |r.buf| == MAX_FRAME
    && match r.phase
       case Sync => r.pos == 0 || (r.pos == 1 && Started(r.buf, 1))
       case InHeader => 2 <= r.pos < HEADER_SIZE && Started(r.buf, 2)
       case InPayload => Announced(r) && HEADER_SIZE <= r.pos < HEADER_SIZE + r.header.payloadLen
       case InTrailer => Announced(r) && HEADER_SIZE + r.header.payloadLen <= r.pos < Total(r.header)
  }

  predicate Started(buf: bytes, n: nat)
    requires n <= 2 <= |buf|
  {
    buf[..n] == [MAGIC_LOW, MAGIC_HIGH][..n]
  }

  predicate Announced(r: Rx)
    requires |r.buf| == MAX_FRAME
  {
    Started(r.buf, 2) && r.header == HeaderOf(r.buf) && GoodHeader(r.header)
  }

  /** How long a frame with this header is. */
  function Total(h: Header): nat { HEADER_SIZE + h.payloadLen + 2 }

  predicate Resting(r: Rx) { Valid(r) && r.phase == Sync && r.pos == 0 }

  function Store(r: Rx, b: byte): Rx
    requires r.pos < |r.buf|
  {
    r.(buf := r.buf[r.pos := b], pos := r.pos + 1)
  }

  function Drop(r: Rx): Rx { r.(phase := Sync, pos := 0) }

  /** `feed_byte`, as a function. */
  function Step(r: Rx, b: byte): (s: Rx)
    requires Valid(r)
  {
    match r.phase
    case Sync =>
      if r.pos == 0 && b == MAGIC_LOW then Store(r, b)
      else if r.pos == 1 && b == MAGIC_HIGH then Store(r, b).(phase := InHeader)
      else r.(pos := 0)
    case InHeader =>
      var s := Store(r, b);
      if s.pos < HEADER_SIZE then s else AfterHeader(s)
    case InPayload =>
      var s := Store(r, b);
      if s.pos < HEADER_SIZE + s.header.payloadLen then s else s.(phase := InTrailer)
    case InTrailer =>
      var s := Store(r, b);
      if s.pos < Total(s.header) then s else Drop(s)
  }

  function AfterHeader(s: Rx): Rx
    requires |s.buf| == MAX_FRAME
  {
    var h := HeaderOf(s.buf);
    if !GoodHeader(h) then Drop(s.(header := h))
    else s.(header := h, phase := if h.payloadLen == 0 then InTrailer else InPayload)
  }

  lemma HeaderKept(s: bytes, i: nat, b: byte)
    requires HEADER_SIZE <= i < |s|
    ensures HeaderOf(s[i := b]) == HeaderOf(s) && s[i := b][..2] == s[..2]
  {
  }

  lemma StoreKeepsStart(s: bytes, i: nat, b: byte)
    requires 2 <= i < |s|
    ensures s[i := b][..2] == s[..2]
  {
  }

  /** The relation between state and position survives every byte. */
  lemma StepValid(r: Rx, b: byte)
    requires Valid(r)
    ensures Valid(Step(r, b))
    ensures Step(r, b).pos == 0 || Step(r, b).pos == r.pos + 1
  {
    hide HeaderOf;
    if r.phase != Sync { StoreKeepsStart(r.buf, r.pos, b); }
    if r.phase == InPayload || r.phase == InTrailer { HeaderKept(r.buf, r.pos, b); }
  }

  /** The buffer `process_frame` looks at when byte `b` completes a frame whose trailer matches. */
  predicate Delivers(r: Rx, b: byte)
    requires Valid(r)
  {
    r.phase == InTrailer && r.pos + 1 == Total(r.header) && Intact(Store(r, b).buf[..Total(r.header)])
  }

  // ---- whole streams ----

  function Run(r: Rx, input: bytes): (s: Rx)
    requires Valid(r)
    ensures Valid(s)
    decreases |input|
  {
    if input == [] then r else
    var before := Run(r, input[..|input| - 1]);
    StepValid(before, input[|input| - 1]);
    Step(before, input[|input| - 1])
  }

  predicate Buffers(log: seq<bytes>) {
    forall i :: 0 <= i < |log| ==> |log[i]| == MAX_FRAME
  }

  /** The frame buffers processed while `input` goes by, in order. */
  function Log(r: Rx, input: bytes): (log: seq<bytes>)
    requires Valid(r)
    ensures Buffers(log)
    decreases |input|
  {
    if input == [] then [] else
    var m := |input| - 1;
    Log(r, input[..m]) + Last(Run(r, input[..m]), input[m])
  }

  function Last(r: Rx, b: byte): (log: seq<bytes>)
    requires Valid(r)
    ensures Buffers(log)
  {
    if Delivers(r, b) then [Store(r, b).buf] else []
  }

  lemma RunSnoc(r: Rx, a: bytes, b: byte)
    requires Valid(r)
    ensures Run(r, a + [b]) == Step(Run(r, a), b) && Log(r, a + [b]) == Log(r, a) + Last(Run(r, a), b)
  {
    hide Step, Last, Valid;
    assert (a + [b])[..|a|] == a;
  }

  /** How the stream is chunked makes no difference. */
  lemma {:induction false} RunAppend(r: Rx, a: bytes, b: bytes)
    requires Valid(r)
    ensures Run(r, a + b) == Run(Run(r, a), b)
    ensures Log(r, a + b) == Log(r, a) + Log(Run(r, a), b)
    decreases |b|
  {
    hide Step, Last, Valid, Run, Log;
    if b == [] {
      RunNothing(Run(r, a));
      assert a + b == a;
    } else {
      var m := |b| - 1;
      RunAppend(r, a, b[..m]);
      RunSnoc(Run(r, a), b[..m], b[m]);
      RunSnoc(r, a + b[..m], b[m]);
      assert b[..m] + [b[m]] == b;
      assert (a + b[..m]) + [b[m]] == a + b;
      Associative(Log(r, a), Log(Run(r, a), b[..m]), Last(Run(Run(r, a), b[..m]), b[m]));
    }
  }

  lemma RunNothing(r: Rx)
    requires Valid(r)
    ensures Run(r, []) == r && Log(r, []) == []
  {
  }

  lemma Associative<T>(a: seq<T>, b: seq<T>, c: seq<T>)
    ensures (a + b) + c == a + (b + c)
  {
  }

  // ---- framed streams ----

  /** The state of the receiver `k` bytes into a well framed block. */
  predicate Within(r: Rx, f: bytes, k: nat)
    requires WellFramed(f) && k < |f|
  {
    && Valid(r)
    && r.pos == k
    && r.buf[..k] == f[..k]
    && (k >= HEADER_SIZE ==> r.header == HeaderOf(f))
    && r.phase == if k < 2 then Sync else if k < HEADER_SIZE then InHeader
                  else if k < |f| - 2 then InPayload else InTrailer
  }

  lemma StorePrefix(s: bytes, f: bytes, k: nat)
    requires k < |f| <= |s| && s[..k] == f[..k]
    ensures s[k := f[k]][..k + 1] == f[..k + 1]
  {
    assert s[k := f[k]][..k + 1] == s[..k] + [f[k]];
    assert f[..k + 1] == f[..k] + [f[k]];
  }

  lemma HeaderFromPrefix(s: bytes, f: bytes)
    requires |s| >= HEADER_SIZE && |f| >= HEADER_SIZE && s[..HEADER_SIZE] == f[..HEADER_SIZE]
    ensures HeaderOf(s) == HeaderOf(f)
  {
    assert forall i :: 0 <= i < HEADER_SIZE ==> s[i] == s[..HEADER_SIZE][i] == f[..HEADER_SIZE][i] == f[i];
  }

  lemma WithinStep(r: Rx, f: bytes, k: nat)
    requires WellFramed(f) && k + 1 < |f| && Within(r, f, k)
    ensures Within(Step(r, f[k]), f, k + 1)
    ensures !Delivers(r, f[k])
  {
    hide HeaderOf, Intact;
    StorePrefix(r.buf, f, k);
    StepValid(r, f[k]);
    if k + 1 == HEADER_SIZE { HeaderFromPrefix(Store(r, f[k]).buf, f); }
  }

  /** The last byte of a block delivers it when it is intact, and either way the receiver is at rest again. */
  lemma BlockEnds(r: Rx, f: bytes)
    requires WellFramed(f) && Within(r, f, |f| - 1)
    ensures Resting(Step(r, f[|f| - 1]))
    ensures Delivers(r, f[|f| - 1]) <==> Intact(f)
    ensures Store(r, f[|f| - 1]).buf[..|f|] == f
  {
    hide HeaderOf, Intact;
    StorePrefix(r.buf, f, |f| - 1);
    StepValid(r, f[|f| - 1]);
    assert f[..|f|] == f;
  }

  lemma {:induction false} BlockProgress(r: Rx, f: bytes, k: nat)
    requires WellFramed(f) && k < |f| && Resting(r)
    ensures Within(Run(r, f[..k]), f, k) && Log(r, f[..k]) == []
    decreases k
  {
    hide Step, HeaderOf, Delivers, Within, WellFramed;
    if k == 0 {
      AtStart(r, f);
    } else {
      BlockProgress(r, f, k - 1);
      WithinStep(Run(r, f[..k - 1]), f, k - 1);
      assert f[..k] == f[..k - 1] + [f[k - 1]];
      RunSnoc(r, f[..k - 1], f[k - 1]);
    }
  }

  lemma AtStart(r: Rx, f: bytes)
    requires WellFramed(f) && Resting(r)
    ensures Within(r, f, 0)
  {
  }

  /** A frame buffer cut to the frame it holds. */
  function FrameIn(buf: bytes): bytes
    requires |buf| >= HEADER_SIZE
  {
    var n := Total(HeaderOf(buf));
    if n <= |buf| then buf[..n] else buf
  }

  function FramesIn(log: seq<bytes>): (r: seq<bytes>)
    requires Buffers(log)
    ensures |r| == |log|
  {
    seq(|log|, i requires 0 <= i < |log| => FrameIn(log[i]))
  }

  lemma FrameInBuffer(buf: bytes, f: bytes)
    requires WellFramed(f) && |f| <= |buf| && buf[..|f|] == f
    ensures FrameIn(buf) == f
  {
    hide HeaderOf;
    assert buf[..HEADER_SIZE] == buf[..|f|][..HEADER_SIZE];
    HeaderFromPrefix(buf, f);
  }

  function Kept(f: bytes): seq<bytes> { if Intact(f) then [f] else [] }

  lemma BlockDelivered(r: Rx, f: bytes)
    requires WellFramed(f) && Resting(r)
    ensures Resting(Run(r, f)) && FramesIn(Log(r, f)) == Kept(f)
  {
    hide Step, HeaderOf, Delivers, Within, Intact, Run, Log, WellFramed, Valid;
    BlockIsLong(f);
    var m := |f| - 1;
    BlockProgress(r, f, m);
    assert f[..m] + [f[m]] == f;
    RunSnoc(r, f[..m], f[m]);
    BlockCounts(Run(r, f[..m]), f);
  }

  lemma BlockIsLong(f: bytes)
    requires WellFramed(f)
    ensures HEADER_SIZE + 2 <= |f| <= MAX_FRAME
  {
  }

  lemma BlockCounts(r: Rx, f: bytes)
    requires WellFramed(f) && Within(r, f, |f| - 1)
    ensures Resting(Step(r, f[|f| - 1])) && FramesIn(Last(r, f[|f| - 1])) == Kept(f)
  {
    hide Step, HeaderOf, Intact, FrameIn;
    BlockEnds(r, f);
    FrameInBuffer(Store(r, f[|f| - 1]).buf, f);
  }

  function Concat(blocks: seq<bytes>): bytes {
    if blocks == [] then [] else Concat(blocks[..|blocks| - 1]) + blocks[|blocks| - 1]
  }

  function IntactOnes(blocks: seq<bytes>): seq<bytes> {
    if blocks == [] then [] else IntactOnes(blocks[..|blocks| - 1]) + Kept(blocks[|blocks| - 1])
  }

  /**
   * Of any sequence of well framed blocks, whatever their payloads, exactly those whose trailer matches are
   * delivered, once each and in order.
   */
  lemma {:induction false} StreamDelivered(r: Rx, blocks: seq<bytes>)
    requires Resting(r) && forall f <- blocks :: WellFramed(f)
    ensures Resting(Run(r, Concat(blocks)))
    ensures FramesIn(Log(r, Concat(blocks))) == IntactOnes(blocks)
  {
    hide WellFramed, Intact, Valid, FrameIn;
    if blocks != [] {
      var m := |blocks| - 1;
      StreamDelivered(r, blocks[..m]);
      var a := Concat(blocks[..m]);
      RunAppend(r, a, blocks[m]);
      BlockDelivered(Run(r, a), blocks[m]);
      FramesAppend(Log(r, a), Log(Run(r, a), blocks[m]));
    }
  }

  lemma FramesAppend(a: seq<bytes>, b: seq<bytes>)
    requires Buffers(a) && Buffers(b)
    ensures Buffers(a + b)
    ensures FramesIn(a + b) == FramesIn(a) + FramesIn(b)
  {
  }

  lemma {:induction false} AllIntact(blocks: seq<bytes>)
    requires forall i :: 0 <= i < |blocks| ==> Intact(blocks[i])
    ensures IntactOnes(blocks) == blocks
  {
    hide Intact;
    if blocks != [] {
      var m := |blocks| - 1;
      var front := blocks[..m];
      assert forall i :: 0 <= i < m ==> front[i] == blocks[i];
      AllIntact(front);
      assert Kept(blocks[m]) == [blocks[m]];
      assert blocks == front + [blocks[m]];
    }
  }

  // ---- arbitrary streams ----

  /** Where in the stream the deliveries end: an offset for each entry of the log. */
  function Ends(r: Rx, input: bytes): (e: seq<nat>)
    requires Valid(r)
    ensures |e| == |Log(r, input)|
    decreases |input|
  {
    if input == [] then [] else
    var m := |input| - 1;
    if Delivers(Run(r, input[..m]), input[m]) then Ends(r, input[..m]) + [m + 1] else Ends(r, input[..m])
  }

  /** `f` is the intact, well framed piece of `input` that ends at `end`. */
  predicate IsWindow(input: bytes, f: bytes, end: nat) {
    && |f| <= end <= |input|
    && input[end - |f|..end] == f
    && WellFramed(f)
    && Intact(f)
  }

  /** The frames are windows of `input`, in order, without overlap, and none reaches beyond `limit`. */
  predicate Windows(input: bytes, frames: seq<bytes>, ends: seq<nat>, limit: int)
    decreases |frames|
  {
    && |frames| == |ends|
    && (frames == [] || (
          var m := |frames| - 1;
          && ends[m] <= limit
          && IsWindow(input, frames[m], ends[m])
          && Windows(input, frames[..m], ends[..m], ends[m] - |frames[m]|)))
  }

  lemma {:induction false} WindowsStay(input: bytes, b: byte, frames: seq<bytes>, ends: seq<nat>, limit: int,
                                       limit': int)
    requires Windows(input, frames, ends, limit) && limit <= limit'
    ensures Windows(input + [b], frames, ends, limit')
    decreases |frames|
  {
    hide WellFramed, Intact;
    if frames != [] {
      var m := |frames| - 1;
      var e := ends[m];
      assert (input + [b])[e - |frames[m]|..e] == input[e - |frames[m]|..e];
      WindowsStay(input, b, frames[..m], ends[..m], e - |frames[m]|, e - |frames[m]|);
    }
  }

  /** What the receiver has of a frame are the latest bytes of the stream. */
  predicate Holds(r: Rx, input: bytes)
    requires Valid(r)
  {
    r.pos <= |input| && input[|input| - r.pos..] == r.buf[..r.pos]
  }

  lemma HoldsStep(r: Rx, input: bytes, b: byte)
    requires Valid(r) && Holds(r, input)
    ensures Valid(Step(r, b)) && Holds(Step(r, b), input + [b])
  {
    hide HeaderOf;
    StepValid(r, b);
    var n := |input| - r.pos;
    assert (input + [b])[n..] == input[n..] + [b];
    assert r.buf[r.pos := b][..r.pos + 1] == r.buf[..r.pos] + [b];
  }

  lemma DeliversWindow(r: Rx, input: bytes, b: byte)
    requires Valid(r) && Holds(r, input) && Delivers(r, b)
    ensures var f := FrameIn(Store(r, b).buf);
      |f| == r.pos + 1 && IsWindow(input + [b], f, |input| + 1) && Step(r, b).pos == 0
  {
    hide HeaderOf, Intact;
    var buf := Store(r, b).buf;
    HeaderKept(r.buf, r.pos, b);
    var f := buf[..r.pos + 1];
    assert FrameIn(buf) == f;
    var n := |input| - r.pos;
    assert (input + [b])[n..|input| + 1] == input[n..] + [b];
    assert f == r.buf[..r.pos] + [b];
    HeaderFromPrefix(buf, f);
    assert buf[..2] == r.buf[..2];
    assert f[0] == buf[..2][0] && f[1] == buf[..2][1];
  }

  /**
   * Whatever the stream, every delivered frame is an intact, well framed window of it, and the windows follow each
   * other without overlap.
   */
  lemma {:induction false} OnlyWindows(r: Rx, input: bytes)
    requires Resting(r)
    ensures Holds(Run(r, input), input)
    ensures Windows(input, FramesIn(Log(r, input)), Ends(r, input), |input| - Run(r, input).pos)
    decreases |input|
  {
    hide Valid, Holds, Delivers, FrameIn, IsWindow, Step, Windows;
    if input == [] {
      NothingYet(r);
    } else {
      var m := |input| - 1;
      var front, b := input[..m], input[m];
      OnlyWindows(r, front);
      var s := Run(r, front);
      assert front + [b] == input;
      HoldsStep(s, front, b);
      WindowsNext(s, front, b, Log(r, front), Ends(r, front));
    }
  }

  lemma NothingYet(r: Rx)
    requires Resting(r)
    ensures Holds(r, []) && Windows([], [], [], 0)
  {
  }

  lemma WindowsNext(s: Rx, front: bytes, b: byte, log: seq<bytes>, ends: seq<nat>)
    requires Valid(s) && Holds(s, front) && |log| == |ends|
    requires Buffers(log)
    requires Windows(front, FramesIn(log), ends, |front| - s.pos)
    ensures Windows(front + [b], FramesIn(log + Last(s, b)), if Delivers(s, b) then ends + [|front| + 1] else ends,
      |front| + 1 - Step(s, b).pos)
  {
    hide Valid, Holds, Delivers, FrameIn, IsWindow, Step, Windows, Store, FramesIn, Buffers, HeaderOf, WellFramed;
    StepValid(s, b);
    var limit := |front| - s.pos;
    if Delivers(s, b) {
      var last := LastIs(s, b);
      DeliversWindow(s, front, b);
      WindowsStay(front, b, FramesIn(log), ends, limit, limit);
      WindowsGrow(front + [b], FramesIn(log), ends, limit, last, |front| + 1);
      FramesAppend(log, Last(s, b));
    } else {
      WindowsStay(front, b, FramesIn(log), ends, limit, |front| + 1 - Step(s, b).pos);
      assert log + Last(s, b) == log;
    }
  }

  lemma LastIs(s: Rx, b: byte) returns (f: bytes)
    requires Valid(s) && Delivers(s, b)
    ensures f == FrameIn(Store(s, b).buf) && FramesIn(Last(s, b)) == [f]
  {
    hide FrameIn;
    f := FrameIn(Store(s, b).buf);
  }

  lemma WindowsGrow(input: bytes, frames: seq<bytes>, ends: seq<nat>, limit: int, last: bytes, end: nat)
    requires Windows(input, frames, ends, limit) && IsWindow(input, last, end) && limit == end - |last|
    ensures Windows(input, frames + [last], ends + [end], end)
  {
    hide IsWindow;
    var f, e := frames + [last], ends + [end];
    assert f[..|frames|] == frames && e[..|frames|] == ends;
  }

  /** A started frame is accepted or abandoned before the buffer could overflow. */
  lemma {:induction false} Settles(r: Rx, input: bytes) returns (k: nat)
    requires Valid(r) && r.pos > 0 && |input| >= MAX_FRAME - r.pos
    ensures 1 <= k <= MAX_FRAME - r.pos && Resting(Run(r, input[..k]))
    decreases MAX_FRAME - r.pos
  {
    hide Step, Valid;
    PositionBound(r);
    StepValid(r, input[0]);
    var s := Step(r, input[0]);
    PositionBound(s);
    if s.pos == 0 {
      k := 1;
      assert input[..1] == [] + [input[0]];
      RunSnoc(r, [], input[0]);
    } else {
      var j := Settles(s, input[1..]);
      k := j + 1;
      assert input[..k] == [input[0]] + input[1..][..j];
      RunAppend(r, [input[0]], input[1..][..j]);
      assert [] + [input[0]] == [input[0]];
      RunSnoc(r, [], input[0]);
    }
  }

  lemma PositionBound(r: Rx)
    requires Valid(r)
    ensures 0 <= r.pos < MAX_FRAME && (r.pos == 0 ==> Resting(r))
  {
  }

  /** Filler that cannot start a frame leaves a resting receiver at rest. */
  lemma {:induction false} FillerIgnored(r: Rx, filler: bytes)
    requires Resting(r) && MAGIC_LOW !in filler
    ensures Resting(Run(r, filler)) && Log(r, filler) == []
    decreases |filler|
  {
    if filler != [] {
      var m := |filler| - 1;
      FillerIgnored(r, filler[..m]);
    }
  }

  /** From any state, a frame's length of such filler brings the receiver back to rest. */
  lemma FillerResynchronises(r: Rx, filler: bytes)
    requires Valid(r) && MAGIC_LOW !in filler && |filler| >= MAX_FRAME
    ensures Resting(Run(r, filler))
  {
    hide Valid, Run, Log, Resting;
    PositionBound(r);
    if r.pos > 0 {
      var k := Settles(r, filler);
      FillerRest(r, filler, k);
    } else {
      FillerIgnored(r, filler);
    }
  }

  lemma FillerRest(r: Rx, filler: bytes, k: nat)
    requires Valid(r) && MAGIC_LOW !in filler && k <= |filler| && Resting(Run(r, filler[..k]))
    ensures Resting(Run(r, filler))
  {
    hide Valid, Run, Log, Resting;
    RunAppend(r, filler[..k], filler[k..]);
    assert filler[..k] + filler[k..] == filler;
    FillerIgnored(Run(r, filler[..k]), filler[k..]);
  }

  // ---- corrupted frames ----

  /** Magic, version and length are as sent; type, sequence number, payload and trailer may not be. */
  predicate SameFraming(f: bytes, g: bytes) {
    |f| == |g| >= HEADER_SIZE && f[..3] == g[..3] && f[4..6] == g[4..6]
  }

  lemma StillFramed(f: bytes, g: bytes)
    requires WellFramed(f) && SameFraming(f, g)
    ensures WellFramed(g)
  {
    assert forall i :: 0 <= i < 3 ==> f[i] == f[..3][i] && g[i] == g[..3][i];
    assert f[4] == f[4..6][0] && f[5] == f[4..6][1] && g[4] == g[4..6][0] && g[5] == g[4..6][1];
  }

  /**
   * A sent frame that arrives with a burst of at most 16 flipped bits in front of the trailer, of at most 12 anywhere,
   * or with any odd number of flipped bits, delivers nothing and does not upset what follows.
   */
  lemma CorruptedRejected(r: Rx, f: bytes, g: bytes)
    requires Resting(r) && WellFramed(f) && Intact(f) && SameFraming(f, g)
    requires Noticeable(f, g)
    ensures Resting(Run(r, g)) && Log(r, g) == []
  {
    hide WellFramed, Intact, SameFraming, Noticeable, Valid, FrameIn;
    NoticeableBreaks(f, g);
    StillFramed(f, g);
    BlockDelivered(r, g);
  }
}
