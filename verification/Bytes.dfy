/** Machine words and byte strings, as the C code sees them. */
module Bytes {

  type byte = x: int | 0 <= x < 256
  type uint16 = x: int | 0 <= x < 0x1_0000
  type uint32 = x: int | 0 <= x < 0x1_0000_0000
  type bytes = seq<byte>

  const NEWLINE: byte := 10

  datatype Option<+T> = None | Some(value: T)

  /** `s` occurs in `c` at offset `off`. */
  predicate At(c: bytes, off: nat, s: bytes)
    ensures At(c, off, s) ==> s == [] || off + |s| <= |c|
    decreases |s|
  {
    s == [] || (off < |c| && c[off] == s[0] && At(c, off + 1, s[1..]))
  }

  lemma {:induction false} AtSplit(c: bytes, off: nat, a: bytes, b: bytes)
    ensures At(c, off, a + b) <==> At(c, off, a) && At(c, off + |a|, b)
    decreases |a|
  {
    if a == [] {
      assert a + b == b;
    } else {
      assert (a + b)[1..] == a[1..] + b;
      AtSplit(c, off + 1, a[1..], b);
    }
  }

  lemma {:induction false} AtIndex(c: bytes, off: nat, s: bytes, i: nat)
    requires At(c, off, s) && i < |s|
    ensures c[off + i] == s[i]
    decreases i
  {
    if i > 0 { AtIndex(c, off + 1, s[1..], i - 1); }
  }

  lemma {:induction false} AtSlice(c: bytes, off: nat, s: bytes)
    requires off + |s| <= |c|
    ensures At(c, off, s) <==> c[off..off + |s|] == s
    decreases |s|
  {
    if s != [] {
      var w := c[off..off + |s|];
      assert w == [c[off]] + w[1..] && w[1..] == c[off + 1..off + |s|];
      assert s == [s[0]] + s[1..];
      AtSlice(c, off + 1, s[1..]);
    }
  }

  /** The C string stored in a block: everything before the first NUL. */
  function CStr(s: bytes): (r: bytes)
    ensures 0 !in r && r <= s
    ensures |r| < |s| ==> s[|r|] == 0
  {
    if s == [] || s[0] == 0 then [] else [s[0]] + CStr(s[1..])
  }

  lemma {:induction false} CStrOfTerminated(s: bytes, rest: bytes)
    requires 0 !in s
    ensures CStr(s + [0] + rest) == s
  {
    if s == [] {
      assert (s + [0] + rest)[0] == 0;
    } else {
      assert (s + [0] + rest)[1..] == s[1..] + [0] + rest;
      CStrOfTerminated(s[1..], rest);
    }
  }

  lemma {:induction false} CStrOfNulFree(s: bytes)
    requires 0 !in s
    ensures CStr(s) == s
  {
    if s != [] {
      CStrOfNulFree(s[1..]);
    }
  }
}
