/** Whether the display counts the host as connected: the flag over any run of frames and timeout checks. */
module SatConnection {
  import opened Bytes
  import opened SatReceiver
  import opened SatData

  const WRAP: nat := 0x1_0000_0000

  /** The two fields the timeout works on. */
  datatype Link = Link(connected: bool, last: uint32)

  /** What happens to them, with the true time in milliseconds: an accepted frame, or one timeout check. */
  datatype Beat = Heard(at: nat) | Checked(at: nat)

  /** How old a frame heard at `heard` looks at `now` on a clock of 32 bits. */
  function Age(now: nat, heard: uint32): uint32 { (now % WRAP - heard) % WRAP }

  function LinkStep(l: Link, b: Beat): Link {
    match b
    case Heard(t) => Link(true, t % WRAP)
    case Checked(t) => l.(connected := l.connected && Age(t, l.last) <= CONNECTION_TIMEOUT_MS)
  }

  function LinkAfter(l: Link, beats: seq<Beat>): Link {
    if beats == [] then l else LinkStep(LinkAfter(l, beats[..|beats| - 1]), beats[|beats| - 1])
  }

  lemma {:induction false} LinkAppend(l: Link, a: seq<Beat>, b: seq<Beat>)
    ensures LinkAfter(l, a + b) == LinkAfter(LinkAfter(l, a), b)
    decreases |b|
  {
    hide LinkStep;
    if b == [] {
      assert a + b == a;
    } else {
      assert (a + b)[..|a + b| - 1] == a + b[..|b| - 1];
      LinkAppend(l, a, b[..|b| - 1]);
    }
  }

  lemma LinkOne(l: Link, b: Beat)
    ensures LinkAfter(l, [b]) == LinkStep(l, b)
  {
    hide LinkStep;
    assert [b][..0] == [];
  }

  // ---- the frames of a stream ----

  function BeatOf(r: Rx, b: byte, now: nat): seq<Beat>
    requires Valid(r)
  {
    if Delivers(r, b) then [Heard(now)] else []
  }

  /** One beat for every frame that `input` delivers, at the time of its last byte. */
  function Beats(r: Rx, input: bytes, clock: seq<nat>): (beats: seq<Beat>)
    requires Valid(r) && |clock| == |input|
    ensures |beats| == |Log(r, input)|
    decreases |input|
  {
    if input == [] then [] else
    var m := |input| - 1;
    Beats(r, input[..m], clock[..m]) + BeatOf(Run(r, input[..m]), input[m], clock[m])
  }

  lemma BeatsSnoc(r: Rx, input: bytes, clock: seq<nat>, b: byte, now: nat)
    requires Valid(r) && |clock| == |input|
    ensures Beats(r, input + [b], clock + [now]) == Beats(r, input, clock) + BeatOf(Run(r, input), b, now)
  {
    hide Valid, Run, BeatOf, Log;
    var all, times := input + [b], clock + [now];
    assert all[..|all| - 1] == input && times[..|all| - 1] == clock;
  }

  // ---- connected or not ----

  /** The index of the last accepted frame, or -1. */
  function LastHeard(beats: seq<Beat>): (k: int)
    ensures -1 <= k < |beats| && (k >= 0 ==> beats[k].Heard?)
    ensures forall i :: k < i < |beats| ==> beats[i].Checked?
  {
    if beats == [] then -1
    else if beats[|beats| - 1].Heard? then |beats| - 1
    else LastHeard(beats[..|beats| - 1])
  }

  /** Every check since the last frame saw it as young enough. */
  predicate NeverLate(beats: seq<Beat>) {
    var k := LastHeard(beats);
    k >= 0 && forall i :: k < i < |beats| ==> Age(beats[i].at, beats[k].at % WRAP) <= CONNECTION_TIMEOUT_MS
  }

  /**
   * For any run at all: connected exactly when some frame was accepted and no check since the last one found its age,
   * modulo 2^32, above the limit.
   */
  lemma {:induction false} ConnectedIff(l: Link, beats: seq<Beat>)
    requires !l.connected
    ensures LinkAfter(l, beats).connected == NeverLate(beats)
    ensures LastHeard(beats) >= 0 ==> LinkAfter(l, beats).last == beats[LastHeard(beats)].at % WRAP
    decreases |beats|
  {
    hide Age;
    if beats != [] {
      var m := |beats| - 1;
      ConnectedIff(l, beats[..m]);
      var k := LastHeard(beats);
      if beats[m].Checked? && k >= 0 {
        NeverLateSnoc(beats[..m], beats[m]);
        assert beats[..m] + [beats[m]] == beats;
      }
    }
  }

  lemma NeverLateSnoc(beats: seq<Beat>, b: Beat)
    requires b.Checked? && LastHeard(beats) >= 0
    ensures LastHeard(beats + [b]) == LastHeard(beats)
    ensures NeverLate(beats + [b]) <==>
      NeverLate(beats) && Age(b.at, beats[LastHeard(beats)].at % WRAP) <= CONNECTION_TIMEOUT_MS
  {
    hide Age;
    var all, k := beats + [b], LastHeard(beats);
    assert all[..|all| - 1] == beats;
    assert all[|beats|] == b;
    assert forall i :: 0 <= i < |beats| ==> all[i] == beats[i];
  }

  /** In order, and never a gap so long that the 32-bit clock could come round between two beats. */
  predicate Paced(beats: seq<Beat>) {
    forall i :: 0 < i < |beats| ==>
      beats[i - 1].at <= beats[i].at < beats[i - 1].at + WRAP - CONNECTION_TIMEOUT_MS
  }

  /** Some frame was accepted no longer than the limit before the last beat. */
  predicate HeardRecently(beats: seq<Beat>) {
    exists i :: 0 <= i < |beats| && beats[i].Heard? && beats[|beats| - 1].at - beats[i].at <= CONNECTION_TIMEOUT_MS
  }

  /** With checks at that pace, connected means just what it says: a frame within the last five seconds. */
  lemma ConnectionIsFresh(l: Link, beats: seq<Beat>)
    requires !l.connected && Paced(beats)
    ensures LinkAfter(l, beats).connected == HeardRecently(beats)
  {
    hide Age, LinkAfter, LastHeard;
    ConnectedIff(l, beats);
    var k := LastHeard(beats);
    if k >= 0 {
      LateOnce(beats, k, |beats| - 1);
      if HeardRecently(beats) {
        var i :| 0 <= i < |beats| && beats[i].Heard? && beats[|beats| - 1].at - beats[i].at <= CONNECTION_TIMEOUT_MS;
        InOrder(beats, i, k);
      }
    }
  }

  lemma {:induction false} InOrder(beats: seq<Beat>, i: nat, j: nat)
    requires Paced(beats) && i <= j < |beats|
    ensures beats[i].at <= beats[j].at
    decreases j
  {
    if i < j { InOrder(beats, i, j - 1); }
  }

  /** The checks up to `j` all found the frame at `k` young enough exactly when it is so at `j`. */
  lemma {:induction false} LateOnce(beats: seq<Beat>, k: nat, j: nat)
    requires Paced(beats) && k <= j < |beats|
    ensures beats[j].at - beats[k].at <= CONNECTION_TIMEOUT_MS <==>
      forall i :: k < i <= j ==> Age(beats[i].at, beats[k].at % WRAP) <= CONNECTION_TIMEOUT_MS
    decreases j
  {
    hide Age;
    if k < j {
      LateOnce(beats, k, j - 1);
      InOrder(beats, k, j - 1);
      if beats[j - 1].at - beats[k].at <= CONNECTION_TIMEOUT_MS {
        AgeIsTrue(beats[j].at, beats[k].at);
      }
    }
  }

  lemma AgeIsTrue(now: nat, heard: nat)
    requires heard <= now < heard + WRAP
    ensures Age(now, heard % WRAP) == now - heard
  {
    TimeoutIgnoresWrap(heard, now);
  }

  /** A flag that has fallen stays down, whatever the clock says, until the next accepted frame. */
  lemma {:induction false} StaysDown(l: Link, before: seq<Beat>, checks: seq<Beat>)
    requires !LinkAfter(l, before).connected && forall i :: 0 <= i < |checks| ==> checks[i].Checked?
    ensures !LinkAfter(l, before + checks).connected
    decreases |checks|
  {
    if checks == [] {
      assert before + checks == before;
    } else {
      var m := |checks| - 1;
      StaysDown(l, before, checks[..m]);
      assert (before + checks)[..|before + checks| - 1] == before + checks[..m];
    }
  }

  /**
   * The pace matters: with no check at all until the clock has come round, a frame would still look new. One check in
   * between is enough.
   */
  lemma UncheckedSilence()
    ensures var beats := [Heard(0), Checked(WRAP)];
      LinkAfter(Link(false, 0), beats).connected && !HeardRecently(beats) && !Paced(beats)
    ensures !LinkAfter(Link(false, 0), [Heard(0), Checked(6000), Checked(WRAP)]).connected
  {
    var l, h, c, w := Link(false, 0), [Heard(0)], [Checked(6000)], [Checked(WRAP)];
    LinkOne(l, h[0]);
    LinkOne(Link(true, 0), w[0]);
    LinkOne(Link(true, 0), c[0]);
    LinkAppend(l, h, w);
    LinkAppend(l, h, c);
    StaysDown(l, h + c, w);
    assert h + w == [Heard(0), Checked(WRAP)];
    assert h + c + w == [Heard(0), Checked(6000), Checked(WRAP)];
  }
}
