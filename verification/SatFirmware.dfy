/** The receiver task: frame assembly and the data model it feeds, updated in place. */
module SatFirmware {
  import opened Bytes
  import opened Ring
  import opened SatProtocol
  import opened SatReceiver
  import opened SatData
  import opened SatConnection

  const RX_BUF_SIZE: nat := 512

  /** One turn of the receiver task: the bytes read (maybe none), the time at each, and the time at the check. */
  datatype Read = Read(input: bytes, clock: seq<nat>, now: nat)

  predicate ReadFits(r: Read) { |r.input| <= RX_BUF_SIZE && |r.clock| == |r.input| }

  type Turn = r: Read | ReadFits(r) witness Read([], [], 0)

  function Stream(turns: seq<Turn>): bytes {
    if turns == [] then [] else Stream(turns[..|turns| - 1]) + turns[|turns| - 1].input
  }

  /** The frames of one turn, and the check that closes it. */
  function TurnBeats(r: Rx, t: Turn): seq<Beat>
    requires SatReceiver.Valid(r)
  {
    Beats(r, t.input, t.clock) + [Checked(t.now)]
  }

  /** The frames and checks of a run of the receiver task, in order. */
  function TaskBeats(r: Rx, turns: seq<Turn>): seq<Beat>
    requires SatReceiver.Valid(r)
  {
    if turns == [] then [] else
    var k := |turns| - 1;
    TaskBeats(r, turns[..k]) + TurnBeats(Run(r, Stream(turns[..k])), turns[k])
  }

  lemma TaskSnoc(r: Rx, turns: seq<Turn>, t: Turn)
    requires SatReceiver.Valid(r)
    ensures Stream(turns + [t]) == Stream(turns) + t.input
    ensures TaskBeats(r, turns + [t]) == TaskBeats(r, turns) + TurnBeats(Run(r, Stream(turns)), t)
  {
    hide SatReceiver.Valid, Run, TurnBeats;
    var all := turns + [t];
    assert all[..|all| - 1] == turns && all[|all| - 1] == t;
  }

  lemma TaskNothing(r: Rx)
    requires SatReceiver.Valid(r)
    ensures Stream([]) == [] && TaskBeats(r, []) == []
  {
  }

  lemma LinkNone(l: Link)
    ensures LinkAfter(l, []) == l
  {
  }

  lemma LastIsDelivered(r: Rx, b: byte)
    requires SatReceiver.Valid(r)
    ensures Last(r, b) == [] <==> !Delivers(r, b)
  {
    hide SatReceiver.Valid, Delivers;
  }

  /** What received frames determine: the display, the history, and the sequence and frame counters. */
  datatype Content = Content(view: Shown, history: seq<Totals>, lastSeq: uint16, rxFrames: uint32)

  function TotalsOf(v: Shown): Totals { Totals(v.totalRx, v.totalTx) }

  /** The content after the frame in `buf` was accepted; unknown types only count as a sign of life. */
  function Absorb(c: Content, buf: bytes): Content
    requires |buf| == MAX_FRAME
  {
    var h := HeaderOf(buf);
    var heard := c.(lastSeq := h.sequence, rxFrames := (c.rxFrames + 1) % 0x1_0000_0000);
    if h.msgType == MSG_SNAPSHOT then
      var v := ShownOf(buf[HEADER_SIZE..]);
      heard.(view := v, history := Recent(c.history + [TotalsOf(v)], HISTORY_LEN))
    else heard
  }

  function AbsorbAll(c: Content, log: seq<bytes>): Content
    requires Buffers(log)
  {
    if log == [] then c else Absorb(AbsorbAll(c, log[..|log| - 1]), log[|log| - 1])
  }

  lemma {:induction false} AbsorbAppend(c: Content, a: seq<bytes>, b: seq<bytes>)
    requires Buffers(a) && Buffers(b)
    ensures Buffers(a + b) && AbsorbAll(c, a + b) == AbsorbAll(AbsorbAll(c, a), b)
    decreases |b|
  {
    hide Absorb;
    if b == [] {
      assert a + b == a;
    } else {
      assert (a + b)[..|a + b| - 1] == a + b[..|b| - 1];
      AbsorbAppend(c, a, b[..|b| - 1]);
    }
  }

  class Receiver {
    var phase: Phase
    var pos: nat
    const frame: array<byte>
    var header: Header
    const data: DataModel

    ghost predicate Valid()
      reads this, frame, data
    {
      frame.Length == MAX_FRAME && SatReceiver.Valid(State()) && data.Valid()
    }

    ghost function State(): Rx
      reads this, frame
    {
      Rx(phase, pos, frame[..], header)
    }

    ghost function Knows(): Content
      requires data.Valid()
      reads data, data.ifaces, data.history
    {
      Content(data.View(), data.History(), data.lastSeq, data.rxFrames)
    }

    ghost function Tie(): Link
      reads data
    {
      Link(data.connected, data.lastRxTime)
    }

    /** `sat_receiver_init`, as far as the automaton goes. */
    constructor ()
      ensures Valid() && Resting(State()) && Knows() == Content(NOTHING_SHOWN, [], 0, 0) && Tie() == Link(false, 0)
    {
      phase, pos := Sync, 0;
      frame := new byte[MAX_FRAME](_ => 0);
      header := Header(0, 0, 0, 0, 0);
      data := new DataModel();
    }

    /** `process_frame`: only a frame whose trailer matches reaches the data model. */
    method ProcessFrame(now: nat)
      requires frame.Length == MAX_FRAME && data.Valid()
      requires header == HeaderOf(frame[..]) && GoodHeader(header)
      modifies data, data.ifaces, data.history
      ensures data.Valid()
      ensures Knows() == if Intact(frame[..Total(header)]) then Absorb(old(Knows()), frame[..]) else old(Knows())
      ensures Intact(frame[..Total(header)]) ==> Tie() == Link(true, now % WRAP)
      ensures !Intact(frame[..Total(header)]) ==> unchanged(data, data.ifaces, data.history)
    {
      hide CrcOf, WordOf, HeaderOf, ShownOf, Recent;
      var expectedLen := HEADER_SIZE + header.payloadLen;
      var crcRx := WordOf(frame[expectedLen], frame[expectedLen + 1]);
      var crcCalc := SatCrc16(frame, expectedLen);
      ghost var f := frame[..Total(header)];
      assert f[..|f| - 2] == frame[..expectedLen];
      if crcRx != crcCalc {
        return;
      }
      assert Intact(f);
      Accept(now);
    }

    method Accept(now: nat)
      requires frame.Length == MAX_FRAME && data.Valid() && header == HeaderOf(frame[..])
      modifies data, data.ifaces, data.history
      ensures data.Valid() && Knows() == Absorb(old(Knows()), frame[..])
      ensures Tie() == Link(true, now % WRAP)
    {
      hide HeaderOf, ShownOf, Recent;
      data.MarkAlive(now % WRAP, header.sequence);
      if header.msgType == MSG_SNAPSHOT {
        data.UpdateSnapshot(frame[HEADER_SIZE..]);
        assert frame[HEADER_SIZE..] == frame[..][HEADER_SIZE..];
      }
    }

    /** `feed_byte` */
    method FeedByte(b: byte, now: nat)
      requires Valid()
      modifies this, frame, data, data.ifaces, data.history
      ensures Valid() && State() == Step(old(State()), b)
      ensures Knows() == AbsorbAll(old(Knows()), Last(old(State()), b))
      ensures Tie() == LinkAfter(old(Tie()), BeatOf(old(State()), b, now))
      ensures !Delivers(old(State()), b) ==> unchanged(data, data.ifaces, data.history)
    {
      ghost var before := State();
      match phase {
        case Sync => FeedSync(b);
        case InHeader => FeedHeader(b);
        case InPayload => FeedPayload(b);
        case InTrailer => FeedTrailer(b, now);
      }
      StepValid(before, b);
    }

    method FeedSync(b: byte)
      requires Valid() && phase == Sync
      modifies this, frame
      ensures State() == Step(old(State()), b)
    {
      if pos == 0 && b == MAGIC_LOW {
        frame[0] := b;
        pos := 1;
      } else if pos == 1 && b == MAGIC_HIGH {
        frame[1] := b;
        pos := 2;
        phase := InHeader;
      } else {
        pos := 0;
      }
    }

    method Keep(b: byte)
      requires pos < frame.Length
      modifies `pos, frame
      ensures State() == Store(old(State()), b)
    {
      frame[pos] := b;
      pos := pos + 1;
    }

    method FeedHeader(b: byte)
      requires Valid() && phase == InHeader
      modifies this, frame
      ensures State() == Step(old(State()), b)
    {
      hide HeaderOf, GoodHeader;
      Keep(b);
      if pos >= HEADER_SIZE {
        header := HeaderOf(frame[..]);
        if !GoodHeader(header) {
          phase, pos := Sync, 0;
        } else if header.payloadLen == 0 {
          phase := InTrailer;
        } else {
          phase := InPayload;
        }
      }
    }

    method FeedPayload(b: byte)
      requires Valid() && phase == InPayload
      modifies this, frame
      ensures State() == Step(old(State()), b)
    {
      hide HeaderOf;
      Keep(b);
      if pos >= HEADER_SIZE + header.payloadLen {
        phase := InTrailer;
      }
    }

    method FeedTrailer(b: byte, now: nat)
      requires Valid() && phase == InTrailer
      modifies this, frame, data, data.ifaces, data.history
      ensures data.Valid() && State() == Step(old(State()), b)
      ensures Knows() == AbsorbAll(old(Knows()), Last(old(State()), b))
      ensures Tie() == LinkAfter(old(Tie()), BeatOf(old(State()), b, now))
      ensures !Delivers(old(State()), b) ==> unchanged(data, data.ifaces, data.history)
    {
      hide HeaderOf, Intact, Absorb;
      HeaderKept(frame[..], pos, b);
      ghost var before, known := State(), Knows();
      Keep(b);
      AbsorbOne(known, frame[..]);
      if pos >= HEADER_SIZE + header.payloadLen + 2 {
        ProcessFrame(now);
        phase, pos := Sync, 0;
      }
    }

    /** The loop of the receiver task over one chunk; `clock` is the true time in milliseconds at each byte. */
    method Receive(chunk: array<byte>, size: nat, clock: seq<nat>)
      requires Valid() && size <= chunk.Length && |clock| == size && chunk != frame
      modifies this, frame, data, data.ifaces, data.history
      ensures Valid() && chunk[..] == old(chunk[..])
      ensures State() == Run(old(State()), chunk[..size])
      ensures Knows() == AbsorbAll(old(Knows()), Log(old(State()), chunk[..size]))
      ensures Tie() == LinkAfter(old(Tie()), Beats(old(State()), chunk[..size], clock))
      ensures Log(old(State()), chunk[..size]) == [] ==> unchanged(data, data.ifaces, data.history)
    {
      hide SatReceiver.Valid, Step, Last, Run, Log, AbsorbAll, LinkAfter, Beats, BeatOf, Delivers;
      ghost var start, known, tie := State(), Knows(), Tie();
      RunNothing(start);
      AbsorbNone(known);
      LinkNone(tie);
      for i := 0 to size
        invariant Valid() && chunk[..] == old(chunk[..])
        invariant State() == Run(start, chunk[..i])
        invariant Knows() == AbsorbAll(known, Log(start, chunk[..i]))
        invariant Tie() == LinkAfter(tie, Beats(start, chunk[..i], clock[..i]))
        invariant Log(start, chunk[..i]) == [] ==> unchanged(data, data.ifaces, data.history)
      {
        ghost var now := State();
        FeedByte(chunk[i], clock[i]);
        assert chunk[..i + 1] == chunk[..i] + [chunk[i]];
        assert clock[..i + 1] == clock[..i] + [clock[i]];
        RunSnoc(start, chunk[..i], chunk[i]);
        BeatsSnoc(start, chunk[..i], clock[..i], chunk[i], clock[i]);
        AbsorbAppend(known, Log(start, chunk[..i]), Last(now, chunk[i]));
        LinkAppend(tie, Beats(start, chunk[..i], clock[..i]), BeatOf(now, chunk[i], clock[i]));
        LastIsDelivered(now, chunk[i]);
      }
      assert clock[..size] == clock;
    }

    /**
     * A sent frame that arrives with a burst of at most 16 flipped bits in front of the trailer, of at most 12
     * anywhere, or with any odd number of flipped bits, leaves the whole data model as it was: display, history,
     * counters, connection.
     */
    method ReceiveCorrupted(chunk: array<byte>, size: nat, clock: seq<nat>, ghost sent: bytes)
      requires Valid() && size <= chunk.Length && |clock| == size && chunk != frame
      requires Resting(State()) && WellFramed(sent) && Intact(sent) && SameFraming(sent, chunk[..size])
      requires Noticeable(sent, chunk[..size])
      modifies this, frame, data, data.ifaces, data.history
      ensures Valid() && Resting(State())
      ensures unchanged(data, data.ifaces, data.history)
    {
      hide WellFramed, Intact, SameFraming, Noticeable, SatReceiver.Valid, Run, Log, AbsorbAll, LinkAfter, Beats;
      CorruptedRejected(State(), sent, chunk[..size]);
      Receive(chunk, size, clock);
    }

    /** One turn of the receiver task's loop: what was read is fed byte by byte, then the connection is checked. */
    method Poll(chunk: array<byte>, size: nat, clock: seq<nat>, now: nat)
      requires Valid() && size <= chunk.Length && |clock| == size && chunk != frame
      modifies this, frame, data, data.ifaces, data.history
      ensures Valid() && chunk[..] == old(chunk[..])
      ensures State() == Run(old(State()), chunk[..size])
      ensures Knows() == AbsorbAll(old(Knows()), Log(old(State()), chunk[..size]))
      ensures Tie() == LinkAfter(old(Tie()), Beats(old(State()), chunk[..size], clock) + [Checked(now)])
    {
      hide SatReceiver.Valid, Run, Log, AbsorbAll, LinkAfter, Beats;
      ghost var tie, beats := Tie(), Beats(State(), chunk[..size], clock);
      Receive(chunk, size, clock);
      LinkAppend(tie, beats, [Checked(now)]);
      LinkOne(LinkAfter(tie, beats), Checked(now));
      data.CheckConnection(now % WRAP);
    }

    /**
     * `receiver_task`, as long as it has run: each read fills `rxBuf`, which is then polled. However the stream is cut
     * into reads, the host counts as connected exactly when a frame was accepted within the last five seconds (with no
     * gap between turns so long that the clock could come round).
     */
    method ReceiverTask(rxBuf: array<byte>, turns: seq<Turn>)
      requires Valid() && rxBuf.Length == RX_BUF_SIZE && rxBuf != frame
      modifies this, frame, data, data.ifaces, data.history, rxBuf
      ensures Valid()
      ensures State() == Run(old(State()), Stream(turns))
      ensures Knows() == AbsorbAll(old(Knows()), Log(old(State()), Stream(turns)))
      ensures Tie() == LinkAfter(old(Tie()), TaskBeats(old(State()), turns))
      ensures !old(data.connected) && Paced(TaskBeats(old(State()), turns)) ==>
                data.connected == HeardRecently(TaskBeats(old(State()), turns))
    {
      hide SatReceiver.Valid, Run, Log, AbsorbAll, LinkAfter, Beats, Stream, TaskBeats, Paced, HeardRecently, LastHeard;
      ghost var start, known, tie := State(), Knows(), Tie();
      RunNothing(start);
      AbsorbNone(known);
      LinkNone(tie);
      TaskNothing(start);
      for i := 0 to |turns|
        invariant Valid()
        invariant State() == Run(start, Stream(turns[..i]))
        invariant Knows() == AbsorbAll(known, Log(start, Stream(turns[..i])))
        invariant Tie() == LinkAfter(tie, TaskBeats(start, turns[..i]))
      {
        var r := turns[i];
        ghost var before := Stream(turns[..i]);
        Fill(rxBuf, r);
        Poll(rxBuf, |r.input|, r.clock, r.now);
        TaskSnoc(start, turns[..i], r);
        assert turns[..i + 1] == turns[..i] + [r];
        RunAppend(start, before, r.input);
        AbsorbAppend(known, Log(start, before), Log(Run(start, before), r.input));
        LinkAppend(tie, TaskBeats(start, turns[..i]), TurnBeats(Run(start, before), r));
      }
      assert turns[..|turns|] == turns;
      if !tie.connected && Paced(TaskBeats(start, turns)) {
        ConnectionIsFresh(tie, TaskBeats(start, turns));
      }
    }
  }

  /** What a read leaves in the buffer. */
  method Fill(buf: array<byte>, r: Turn)
    requires buf.Length == RX_BUF_SIZE
    modifies buf
    ensures buf[..|r.input|] == r.input
  {
    forall i | 0 <= i < |r.input| {
      buf[i] := r.input[i];
    }
  }

  lemma AbsorbNone(c: Content)
    ensures AbsorbAll(c, []) == c
  {
  }

  lemma AbsorbOne(c: Content, buf: bytes)
    requires |buf| == MAX_FRAME
    ensures Buffers([buf]) && AbsorbAll(c, [buf]) == Absorb(c, buf) && AbsorbAll(c, []) == c
  {
    hide Absorb;
    assert [buf][..0] == [];
  }

  // ---- what a delivered frame tells ----

  /** The totals a frame buffer adds to the history: one entry for a snapshot, none for anything else. */
  function Added(buf: bytes): seq<Totals>
    requires |buf| == MAX_FRAME
  {
    if HeaderOf(buf).msgType == MSG_SNAPSHOT then [TotalsOf(ShownOf(buf[HEADER_SIZE..]))] else []
  }

  function SnapshotTotals(log: seq<bytes>): seq<Totals>
    requires Buffers(log)
  {
    if log == [] then [] else SnapshotTotals(log[..|log| - 1]) + Added(log[|log| - 1])
  }

  lemma AbsorbHistory(c: Content, buf: bytes)
    requires |buf| == MAX_FRAME && |c.history| <= HISTORY_LEN
    ensures Absorb(c, buf).history == Recent(c.history + Added(buf), HISTORY_LEN)
    ensures Absorb(c, buf).rxFrames == (c.rxFrames + 1) % 0x1_0000_0000
  {
    hide HeaderOf, ShownOf, Recent;
    RecentAll(c.history, HISTORY_LEN);
    assert c.history + [] == c.history;
  }

  /** The history ring holds the totals of the last 60 snapshots, and every accepted frame was counted. */
  lemma {:induction false} HistoryOfLog(c: Content, log: seq<bytes>)
    requires Buffers(log) && |c.history| <= HISTORY_LEN
    ensures AbsorbAll(c, log).history == Recent(c.history + SnapshotTotals(log), HISTORY_LEN)
    ensures AbsorbAll(c, log).rxFrames == (c.rxFrames + |log|) % 0x1_0000_0000
    decreases |log|
  {
    hide Absorb, Added, Recent;
    if log == [] {
      RecentAll(c.history, HISTORY_LEN);
      assert c.history + [] == c.history;
    } else {
      var m := |log| - 1;
      HistoryOfLog(c, log[..m]);
      AbsorbHistory(AbsorbAll(c, log[..m]), log[m]);
      RecentTwice(c.history + SnapshotTotals(log[..m]), Added(log[m]), HISTORY_LEN);
      SatReceiver.Associative(c.history, SnapshotTotals(log[..m]), Added(log[m]));
      AddWrapped(c.rxFrames + m, 1);
    }
  }

  lemma RecentAll<T>(s: seq<T>, n: nat)
    requires |s| <= n
    ensures Recent(s, n) == s
  {
  }

  /** The bytes from `start` to `end` are a frame as it was sent. */
  predicate FrameAt(input: bytes, start: nat, end: nat) {
    start <= end <= |input| && WellFramed(input[start..end]) && Intact(input[start..end])
  }

  /** Whenever the data model changes, content or connection, some window of the stream was an intact frame. */
  lemma ChangeNeedsWindow(r: Rx, input: bytes, clock: seq<nat>, c: Content, l: Link) returns (start: nat, end: nat)
    requires Resting(r) && |clock| == |input|
    requires AbsorbAll(c, Log(r, input)) != c || LinkAfter(l, Beats(r, input, clock)) != l
    ensures start <= end <= |input| && WellFramed(input[start..end]) && Intact(input[start..end])
  {
    hide WellFramed, Intact, SatReceiver.Valid, FrameIn, Run, Log, Ends, AbsorbAll, Windows, FramesIn, Beats, LinkAfter;
    OnlyWindows(r, input);
    AbsorbNone(c);
    LinkNone(l);
    var frames, ends := FramesIn(Log(r, input)), Ends(r, input);
    start, end := LastWindow(input, frames, ends, |input| - Run(r, input).pos);
  }

  lemma LastWindow(input: bytes, frames: seq<bytes>, ends: seq<nat>, limit: int) returns (start: nat, end: nat)
    requires frames != [] && Windows(input, frames, ends, limit)
    ensures start <= end <= |input| && WellFramed(input[start..end]) && Intact(input[start..end])
  {
    hide WellFramed, Intact;
    var m := |frames| - 1;
    start, end := ends[m] - |frames[m]|, ends[m];
  }
}
