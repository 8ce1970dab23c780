/** The timer callbacks of the collector over their shared arrays. */
module CollectorTicks {
  import opened AppConf
  import opened Bytes
  import opened Collector

  class Tables {
    var num: nat
    const ifaces: array<Iface>
    const lanes: array<Lane>
    const prev: array<Stats>
    var prevValid: bool
    var prevTime: real
    var minutes: nat

    ghost function State(): Model
      reads this, ifaces, lanes, prev
    {
      Model(num, ifaces[..], lanes[..], prev[..], prevValid, prevTime, minutes)
    }

    ghost predicate Valid()
      reads this, ifaces, lanes, prev
    {
      Collector.Valid(State())
    }

    /** The start of `net_collector_init`: everything zeroed, no interface known yet. */
    constructor ()
      ensures Valid() && num == 0 && !prevValid && fresh(ifaces) && fresh(lanes) && fresh(prev)
    {
      var none := Sample(0.0, 0.0);
      var blank := Lane(Samples(seq(SHORT_LEN, _ => none), 0, 0), Samples(seq(LONG_LEN, _ => none), 0, 0), 0.0, 0.0);
      ifaces := new Iface[MAX_INTERFACES](_ => NewIface(Info([], false, false)));
      lanes := new Lane[MAX_INTERFACES](_ => blank);
      prev := new Stats[MAX_INTERFACES](_ => NO_STATS);
      num, prevValid, prevTime, minutes := 0, false, 0.0, 0;
    }

    method FindIface(name: bytes) returns (k: int)
      requires Valid()
      ensures k == Known(State(), name)
    {
      hide IndexOf, GoodLane;
      k := 0;
      while k < num
        invariant 0 <= k <= num
        invariant forall i :: 0 <= i < k ==> ifaces[i].info.name != name
      {
        if ifaces[k].info.name == name {
          IndexIs(Names(State()), name, k);
          return;
        }
        k := k + 1;
      }
      k := -1;
    }

    method FindPrev(name: bytes) returns (j: int)
      requires Valid()
      ensures j == Before(State(), name)
    {
      hide IndexOf, GoodLane;
      j := 0;
      while j < num
        invariant 0 <= j <= num
        invariant forall i :: 0 <= i < j ==> prev[i].name != name
      {
        if prev[j].name == name {
          IndexIs(StatNames(prev[..num]), name, j);
          return;
        }
        j := j + 1;
      }
      j := -1;
    }

    /** The body of the rate loop. */
    method CreditEntry(c: Stats, dt: real)
      requires Valid() && dt > 0.0
      modifies ifaces, lanes
      ensures Valid() && State() == Credit(old(State()), c, dt)
    {
      hide CreditIface, CreditLane, RatesOf, Known, Before, Names, GoodLane;
      CreditValid(State(), c, dt);
      var k := FindIface(c.name);
      if k >= 0 {
        var j := FindPrev(c.name);
        if j >= 0 {
          var r := RatesOf(c, prev[j], dt);
          ifaces[k] := CreditIface(ifaces[k], c, prev[j], dt);
          lanes[k] := CreditLane(lanes[k], r);
        }
      }
    }

    method CreditSample(cur: array<Stats>, count: nat, dt: real)
      requires Valid() && dt > 0.0 && count <= cur.Length && cur != prev
      modifies ifaces, lanes
      ensures Valid() && State() == CreditAll(old(State()), cur[..count], dt)
    {
      hide Collector.Valid, Credit;
      for i := 0 to count
        invariant Valid() && State() == CreditAll(old(State()), cur[..i], dt)
      {
        assert cur[..i + 1][..i] == cur[..i];
        CreditEntry(cur[i], dt);
      }
    }

    /** The flush of the minute accumulators. */
    method FlushMinute(last: nat)
      requires last <= lanes.Length && forall k :: 0 <= k < lanes.Length ==> GoodLane(lanes[k])
      modifies lanes
      ensures lanes[..] == FlushLanes(old(lanes[..]), last)
    {
      hide FlushLane, GoodLane;
      ghost var was := lanes[..];
      for i := 0 to last
        invariant forall k :: 0 <= k < i ==> lanes[k] == FlushLane(was[k])
        invariant forall k :: i <= k < lanes.Length ==> lanes[k] == was[k]
      {
        lanes[i] := FlushLane(lanes[i]);
      }
      assert forall k :: 0 <= k < lanes.Length ==> lanes[..][k] == FlushLanes(was, last)[k];
    }

    method CloseMinute()
      requires Valid()
      modifies `minutes, lanes
      ensures Valid() && State() == Minute(old(State()))
    {
      hide GoodLane, FlushLanes;
      if minutes + 1 >= MINUTE {
        assert forall k :: 0 <= k < lanes.Length ==> lanes[..][k] == lanes[k];
        FlushMinute(num);
        minutes := 0;
      } else {
        minutes := minutes + 1;
      }
      assert State() == Minute(old(State()));
    }

    method RestateEntry(c: Stats)
      requires Valid()
      modifies ifaces
      ensures Valid() && State() == Restated(old(State()), c)
    {
      hide Known, GoodLane, Names;
      var k := FindIface(c.name);
      if k >= 0 {
        ifaces[k] := ifaces[k].(stats := c);
      }
    }

    method RestateSample(cur: array<Stats>, count: nat)
      requires Valid() && count <= cur.Length && cur != prev
      modifies ifaces
      ensures Valid() && State() == RestatedAll(old(State()), cur[..count])
    {
      hide Collector.Valid, Restated;
      for i := 0 to count
        invariant Valid() && State() == RestatedAll(old(State()), cur[..i])
      {
        assert cur[..i + 1][..i] == cur[..i];
        RestateEntry(cur[i]);
      }
    }

    method CopySample(cur: array<Stats>, count: nat)
      requires count <= cur.Length && count <= prev.Length && cur != prev
      modifies prev
      ensures prev[..] == cur[..count] + old(prev[count..])
    {
      for i := 0 to count
        invariant prev[..] == cur[..i] + old(prev[i..])
      {
        prev[i] := cur[i];
      }
    }

    method Remember(cur: array<Stats>, count: nat, now: real)
      requires Valid() && count <= cur.Length && count <= MAX_INTERFACES && cur != prev
      modifies this, prev
      ensures Valid() && State() == Remembered(old(State()), cur[..count], now)
    {
      hide GoodLane;
      assert prev[count..] == prev[..][count..];
      CopySample(cur, count);
      prevTime, prevValid := now, true;
    }

    /** `fast_timer_cb`, from the parsed sample and the time on. */
    method FastTimer(cur: array<Stats>, count: nat, now: real)
      requires Valid() && count <= cur.Length && count <= MAX_INTERFACES && cur != prev
      modifies this, ifaces, lanes, prev
      ensures Valid() && State() == Fast(old(State()), cur[..count], now)
    {
      hide Collector.Valid, CreditAll, Minute, RestatedAll, Remembered, Names;
      if prevValid {
        var dt := now - prevTime;
        if dt > 0.0 {
          CreditSample(cur, count, dt);
        }
      }
      CloseMinute();
      RestateSample(cur, count);
      Remember(cur, count, now);
    }

    /** The body of the merge loop. */
    method MergeEntry(i: Info)
      requires Valid()
      modifies `num, ifaces
      ensures Valid() && State() == Merge(old(State()), i)
    {
      hide Known, GoodLane, Names;
      var k := FindIface(i.name);
      if k >= 0 {
        ifaces[k] := ifaces[k].(info := i);
      } else if num < MAX_INTERFACES {
        ifaces[num] := NewIface(i);
        num := num + 1;
      }
    }

    /** The enumeration part of `slow_timer_cb`. */
    method SlowTimer(found: array<Info>, count: nat)
      requires Valid() && count <= found.Length
      modifies `num, ifaces
      ensures Valid() && State() == Slow(old(State()), found[..count])
    {
      hide Collector.Valid, Merge;
      for i := 0 to count
        invariant Valid() && State() == Slow(old(State()), found[..i])
      {
        assert found[..i + 1][..i] == found[..i];
        MergeEntry(found[i]);
      }
    }
  }
}
