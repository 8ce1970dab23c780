/** Ring buffers: an array, the position of the next write, and how many entries are live. */
module Ring {

  function Min(a: nat, b: nat): nat { if a < b then a else b }

  /** The last `n` entries of a sequence. */
  function Recent<T>(s: seq<T>, n: nat): (r: seq<T>)
    ensures |r| == Min(|s|, n)
    ensures r == s[|s| - |r|..]
  {
    if |s| <= n then s else s[|s| - n..]
  }

  function Next(head: nat, size: nat): (r: nat)
    requires head < size
    ensures r < size
  {
    if head + 1 == size then 0 else head + 1
  }

  /** The live entries, oldest first. */
  function Entries<T>(a: seq<T>, head: nat, count: nat): (r: seq<T>)
    requires head < |a| && count <= |a|
    ensures |r| == count
  {
    if count <= head then a[head - count..head] else a[|a| - (count - head)..] + a[..head]
  }

  lemma NextIsModulo(head: nat, size: nat)
    requires head < size
    ensures Next(head, size) == (head + 1) % size
  {
    if head + 1 < size {
      assert (head + 1) % size == head + 1;
    } else {
      assert size % size == 0;
    }
  }

  /** Where the `i`-th oldest of `count` entries lies. */
  function Slot(size: nat, head: nat, count: nat, i: nat): nat
    requires head < size && i < count <= size
  {
    if head + i < count then size + head + i - count else head + i - count
  }

  lemma EntryAt<T>(a: seq<T>, head: nat, count: nat, i: nat)
    requires head < |a| && i < count <= |a|
    ensures Slot(|a|, head, count, i) < |a|
    ensures Entries(a, head, count)[i] == a[Slot(|a|, head, count, i)]
  {
  }

  lemma SlotNext(size: nat, head: nat, count: nat, i: nat)
    requires head < size && i < count <= size
    ensures count < size ==> Slot(size, Next(head, size), count + 1, i) == Slot(size, head, count, i)
    ensures i > 0 && count == size ==> Slot(size, Next(head, size), count, i - 1) == Slot(size, head, count, i)
    ensures Slot(size, head, count, i) == head ==> i == 0 && count == size
    ensures Slot(size, Next(head, size), count, count - 1) == head
  {
  }

  /** Writing at the head appends, and drops the oldest entry once the ring is full. */
  lemma PushAppends<T>(a: seq<T>, head: nat, count: nat, t: T)
    requires head < |a| && count <= |a|
    ensures Entries(a[head := t], Next(head, |a|), Min(count + 1, |a|)) == Recent(Entries(a, head, count) + [t], |a|)
  {
    hide Entries, Slot, Next;
    var n, live := |a|, Min(count + 1, |a|);
    var after, wanted := Entries(a[head := t], Next(head, n), live), Recent(Entries(a, head, count) + [t], n);
    forall i | 0 <= i < live ensures after[i] == wanted[i] {
      EntryAt(a[head := t], Next(head, n), live, i);
      SlotNext(n, head, live, i);
      if i < live - 1 {
        var j := if count < n then i else i + 1;
        EntryAt(a, head, count, j);
        SlotNext(n, head, count, j);
      }
    }
  }

  lemma RecentTwice<T>(s: seq<T>, t: seq<T>, n: nat)
    ensures Recent(Recent(s, n) + t, n) == Recent(s + t, n)
  {
    if |s| <= n {
      assert Recent(s, n) == s;
    } else {
      var r, all := s[|s| - n..], s + t;
      assert r + t == all[|s| - n..];
      assert (r + t)[|t|..] == all[|s| - n..][|t|..] == all[|all| - n..];
      assert Recent(r + t, n) == (r + t)[|t|..];
    }
  }
}
