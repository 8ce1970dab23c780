/** The configuration store in place: the entry table, and lines trimmed and split inside their buffer. */
module ConfigStore {
  import opened Bytes
  import opened Config

  // ---- C strings inside a buffer ----

  /** The string at the front of `b`, given that it is terminated. */
  lemma {:induction false} CStrIs(b: bytes, n: nat)
    requires n < |b| && b[n] == 0 && forall i :: 0 <= i < n ==> b[i] != 0
    ensures CStr(b) == b[..n]
    decreases n
  {
    if n > 0 {
      CStrIs(b[1..], n - 1);
      assert b[..n] == [b[0]] + b[1..][..n - 1];
    }
  }

  lemma {:induction false} CStrEnds(b: bytes)
    requires 0 in b
    ensures |CStr(b)| < |b| && b[|CStr(b)|] == 0 && CStr(b) == b[..|CStr(b)|]
    ensures forall i :: 0 <= i < |CStr(b)| ==> b[i] != 0
  {
    hide CStr;
    var n := |CStr(b)|;
    assert CStr(b) == b[..n];
    forall i | 0 <= i < n ensures b[i] != 0 {
      assert b[i] == CStr(b)[i];
    }
    var z :| 0 <= z < |b| && b[z] == 0;
    assert n <= z;
  }

  /** `trim`: white space in front is skipped, white space behind is overwritten with terminators. */
  method TrimInPlace(buf: array<byte>, start: nat) returns (p: nat)
    requires start <= buf.Length && 0 in buf[start..]
    modifies buf
    ensures start <= p <= start + |CStr(old(buf[start..]))| < buf.Length
    ensures 0 in buf[p..] && CStr(buf[p..]) == Trimmed(CStr(old(buf[start..])))
    ensures forall i :: 0 <= i < buf.Length && !(start <= i < start + |CStr(old(buf[start..]))|) ==>
      buf[i] == old(buf[i])
  {
    hide CStr, DropTail, DropHead, IsSpace;
    ghost var s := CStr(buf[start..]);
    p := SkipSpace(buf, start);
    EmptyIsTrim(s);
    if buf[p] != 0 {
      FirstIsNoSpace(s);
      CutTail(buf, p, DropHead(s));
    }
  }

  lemma FirstIsNoSpace(s: bytes)
    ensures DropHead(s) != [] ==> !IsSpace(DropHead(s)[0])
  {
  }

  lemma EmptyIsTrim(s: bytes)
    ensures DropHead(s) == [] ==> Trimmed(s) == []
  {
  }

  /** The first loop of `trim`. */
  method SkipSpace(buf: array<byte>, start: nat) returns (p: nat)
    requires start <= buf.Length && 0 in buf[start..]
    ensures start <= p <= start + |CStr(buf[start..])| < buf.Length
    ensures 0 in buf[p..] && CStr(buf[p..]) == DropHead(CStr(buf[start..]))
    ensures p + |CStr(buf[p..])| == start + |CStr(buf[start..])|
    ensures buf[p] == 0 <==> CStr(buf[p..]) == []
    ensures !IsSpace(buf[p])
  {
    hide CStr, DropHead;
    ghost var s := CStr(buf[start..]);
    CStrEnds(buf[start..]);
    p := start;
    while IsSpace(buf[p])
      invariant start <= p <= start + |s| && p < buf.Length && 0 in buf[p..]
      invariant CStr(buf[p..]) == s[p - start..] && DropHead(s[p - start..]) == DropHead(s)
      decreases buf.Length - p
    {
      CStrEnds(buf[p..]);
      CStrRest(buf[p..]);
      assert buf[p..][1..] == buf[p + 1..];
      DropOne(s[p - start..]);
      assert s[p - start..][1..] == s[p - start + 1..];
      p := p + 1;
    }
    CStrEnds(buf[p..]);
    DropNone(s[p - start..]);
  }

  lemma CStrRest(b: bytes)
    requires 0 in b && b[0] != 0
    ensures 0 in b[1..] && CStr(b) == [b[0]] + CStr(b[1..])
  {
  }

  /** The second loop of `trim`, on a string that does not start with white space. */
  method CutTail(buf: array<byte>, p: nat, ghost t: bytes)
    requires p < buf.Length && 0 in buf[p..] && t == CStr(buf[p..]) && t != [] && !IsSpace(t[0])
    modifies buf
    ensures 0 in buf[p..] && CStr(buf[p..]) == DropTail(t)
    ensures p + |t| < buf.Length
    ensures forall i :: 0 <= i < buf.Length && !(p <= i < p + |t|) ==> buf[i] == old(buf[i])
  {
    hide CStr, DropTail, IsSpace;
    assert buf[..][p..] == buf[p..];
    StringBytes(buf[..], p);
    var end := CutBack(buf, p, p + |CStr(buf[p..])| - 1, t);
    KeepLast(t[..end + 1 - p]);
    assert buf[..][p..] == buf[p..];
    StringIs(buf[..], p, t, end + 1 - p);
  }

  lemma StringBytes(b: bytes, p: nat)
    requires p < |b| && 0 in b[p..]
    ensures var t := CStr(b[p..]);
      && p + |t| < |b| && b[p + |t|] == 0
      && forall i :: p <= i < p + |t| ==> b[i] == t[i - p]
  {
    hide CStr;
    CStrEnds(b[p..]);
  }

  lemma StringIs(b: bytes, p: nat, t: bytes, k: nat)
    requires k <= |t| && p + k < |b| && b[p + k] == 0 && 0 !in t
    requires forall i :: p <= i < p + k ==> b[i] == t[i - p]
    ensures 0 in b[p..] && CStr(b[p..]) == t[..k]
  {
    hide CStr;
    assert b[p..][..k] == t[..k];
    TerminatedAt(b[p..], t, k);
  }

  method CutBack(buf: array<byte>, p: nat, last: nat, ghost t: bytes) returns (end: nat)
    requires p <= last && last + 1 < buf.Length && last + 1 - p == |t| && !IsSpace(t[0])
    requires (forall i :: p <= i <= last ==> buf[i] == t[i - p]) && buf[last + 1] == 0
    modifies buf
    ensures p <= end <= last && buf[end + 1] == 0 && !IsSpace(t[end - p])
    ensures forall i :: p <= i <= end ==> buf[i] == t[i - p]
    ensures forall i :: 0 <= i < buf.Length && !(p <= i <= last) ==> buf[i] == old(buf[i])
    ensures DropTail(t[..end + 1 - p]) == DropTail(t)
  {
    hide DropTail, IsSpace;
    end := last;
    assert t[..|t|] == t;
    while end > p && IsSpace(buf[end])
      invariant p <= end <= last && buf[end + 1] == 0
      invariant forall i :: p <= i <= end ==> buf[i] == t[i - p]
      invariant forall i :: 0 <= i < buf.Length && !(p <= i <= last) ==> buf[i] == old(buf[i])
      invariant DropTail(t[..end + 1 - p]) == DropTail(t)
    {
      var k := end + 1 - p;
      DropLast(t[..k]);
      assert t[..k][..k - 1] == t[..k - 1];
      buf[end] := 0;
      end := end - 1;
    }
  }

  lemma TerminatedAt(b: bytes, t: bytes, k: nat)
    requires k <= |t| && k < |b| && b[..k] == t[..k] && b[k] == 0 && 0 !in t
    ensures 0 in b && CStr(b) == t[..k]
  {
    assert forall i :: 0 <= i < k ==> b[i] == b[..k][i] == t[..k][i] == t[i];
    CStrIs(b, k);
  }

  // ---- one line ----

  /** `strchr` for the first equals sign. */
  method FindEquals(buf: array<byte>, p: nat) returns (found: bool, e: nat)
    requires p <= buf.Length && 0 in buf[p..]
    ensures e == p + EqualsAt(CStr(buf[p..])) < buf.Length
    ensures found <==> EqualsAt(CStr(buf[p..])) < |CStr(buf[p..])|
  {
    hide CStr, EqualsAt;
    ghost var s := CStr(buf[p..]);
    CStrEnds(buf[p..]);
    e := p;
    while buf[e] != 0 && buf[e] != EQUALS
      invariant p <= e <= p + |s| && p + |s| < buf.Length
      invariant forall k :: 0 <= k < e - p ==> s[k] != EQUALS
      decreases p + |s| - e
    {
      assert buf[e] == buf[p..][e - p];
      e := e + 1;
    }
    assert buf[e] == buf[p..][e - p];
    found := buf[e] == EQUALS;
    if found { EqualsIsAt(s, e - p); }
  }

  /** Writing a terminator over byte `i` of a string splits it. */
  lemma SplitString(b: bytes, i: nat)
    requires 0 in b && i < |CStr(b)|
    ensures var c := b[i := 0];
      && 0 in c && CStr(c) == CStr(b)[..i]
      && 0 in c[i + 1..] && CStr(c[i + 1..]) == CStr(b)[i + 1..]
  {
    hide CStr;
    CStrEnds(b);
    var n, c := |CStr(b)|, b[i := 0];
    CStrIs(c, i);
    assert c[i + 1..][n - i - 1] == b[n] == 0;
    CStrIs(c[i + 1..], n - i - 1);
    assert c[i + 1..][..n - i - 1] == b[..n][i + 1..];
    assert c[..i] == b[..n][..i];
  }

  /** What `config_load` does with a line in its buffer. */
  method SplitLine(line: array<byte>) returns (said: Option<Entry>)
    requires 0 in line[..]
    modifies line
    ensures said == ParseLine(CStr(old(line[..])))
  {
    hide CStr, Trimmed, ParseTrimmed;
    assert line[0..] == line[..];
    var p := TrimInPlace(line, 0);
    said := SplitTrimmed(line, p);
  }

  method SplitTrimmed(line: array<byte>, p: nat) returns (said: Option<Entry>)
    requires p <= line.Length && 0 in line[p..]
    modifies line
    ensures said == ParseTrimmed(CStr(old(line[p..])))
  {
    hide CStr, EqualsAt, Trimmed;
    ghost var b := line[p..];
    CStrEnds(b);
    if line[p] == 0 || line[p] == HASH {
      return None;
    }
    var found, e := FindEquals(line, p);
    if !found {
      return None;
    }
    SplitString(b, e - p);
    line[e] := 0;
    assert line[p..] == b[e - p := 0];
    assert line[p..][e - p + 1..] == line[e + 1..];
    var key, value := KeyAndValue(line, p, e);
    if key == [] {
      return None;
    }
    return Some(Entry(key, value));
  }

  /** Trimming both halves of a split line. */
  method KeyAndValue(line: array<byte>, p: nat, e: nat) returns (key: bytes, value: bytes)
    requires p <= e < line.Length && 0 in line[p..] && p + |CStr(line[p..])| == e && 0 in line[e + 1..]
    modifies line
    ensures key == Trimmed(CStr(old(line[p..]))) && value == Trimmed(CStr(old(line[e + 1..])))
  {
    hide CStr, Trimmed;
    var k := TrimInPlace(line, p);
    assert line[e + 1..] == old(line[e + 1..]);
    assert old(line[..])[p..] == old(line[p..]);
    StringBytes(old(line[..]), p);
    value := ValueBehind(line, k, e + 1);
    key := CStr(line[k..]);
  }

  /** Trimming the value leaves the key in front of it as it is. */
  method ValueBehind(line: array<byte>, k: nat, m: nat) returns (value: bytes)
    requires k < m <= line.Length && line[m - 1] == 0 && 0 in line[m..]
    modifies line
    ensures value == Trimmed(CStr(old(line[m..]))) && CStr(line[k..]) == CStr(old(line[k..]))
  {
    hide CStr, Trimmed;
    ghost var was := line[..];
    assert was[k..] == line[k..];
    value := TrimmedAt(line, m);
    SameString(was, line[..], k, m);
    assert line[..][k..] == line[k..];
  }

  /** The string at `p`, trimmed; nothing in front of it changes. */
  method TrimmedAt(line: array<byte>, p: nat) returns (s: bytes)
    requires p <= line.Length && 0 in line[p..]
    modifies line
    ensures s == Trimmed(CStr(old(line[p..]))) && line[..p] == old(line[..p])
  {
    hide CStr, Trimmed;
    var v := TrimInPlace(line, p);
    s := CStr(line[v..]);
  }

  /** A string depends on the bytes up to its terminator only. */
  lemma SameString(b: bytes, c: bytes, k: nat, m: nat)
    requires k < m <= |b| && m <= |c| && b[..m] == c[..m] && b[m - 1] == 0
    ensures CStr(b[k..]) == CStr(c[k..])
  {
    hide CStr;
    CStrEnds(b[k..]);
    assert b[k..][m - 1 - k] == 0;
    var n := |CStr(b[k..])|;
    assert forall i :: k <= i < m ==> b[i] == b[..m][i] == c[i];
    CStrIs(c[k..], n);
    assert c[k..][..n] == b[k..][..n];
  }

  // ---- the table ----

  class Store {
    const entries: array<Entry>
    var count: nat

    ghost predicate Valid()
      reads this, entries
    {
      entries.Length == MAX_ENTRIES && count <= MAX_ENTRIES
    }

    ghost function Table(): seq<Entry>
      requires Valid()
      reads this, entries
    {
      entries[..count]
    }

    constructor ()
      ensures Valid() && Table() == [] && fresh(entries)
    {
      entries := new Entry[MAX_ENTRIES](_ => Entry([], []));
      count := 0;
    }

    /** `config_find` */
    method FindKey(key: bytes) returns (k: int)
      requires Valid()
      ensures k == Find(Table(), key)
    {
      hide Find;
      k := 0;
      while k < count
        invariant 0 <= k <= count
        invariant forall i :: 0 <= i < k ==> entries[i].key != key
      {
        if entries[k].key == key {
          FirstIs(Table(), key, k);
          return;
        }
        k := k + 1;
      }
      k := -1;
    }

    /** `config_get_str` */
    method GetStr(key: bytes, absent: bytes) returns (value: bytes)
      requires Valid()
      ensures value == match Get(Table(), key) { case Some(v) => v case None => absent }
    {
      hide Find;
      var k := FindKey(key);
      value := if k >= 0 then entries[k].value else absent;
    }

    /** `config_set_str` */
    method SetStr(key: bytes, value: bytes)
      requires Valid()
      modifies this, entries
      ensures Valid() && Table() == Set(old(Table()), key, value)
    {
      hide Find, Cut;
      var k := FindKey(key);
      if k >= 0 {
        entries[k] := Entry(entries[k].key, Cut(value, VALUE_ROOM));
      } else if count < MAX_ENTRIES {
        entries[count] := Entry(Cut(key, KEY_ROOM), Cut(value, VALUE_ROOM));
        count := count + 1;
      }
    }

    /** `config_save`: the text written. */
    method Save() returns (text: bytes)
      requires Valid()
      ensures text == Saved(Table())
    {
      hide SavedLine;
      text := [];
      for i := 0 to count
        invariant text == Saved(entries[..i])
      {
        SavedMore(entries[..i], entries[i]);
        assert entries[..i + 1] == entries[..i] + [entries[i]];
        text := text + SavedLine(entries[i]);
      }
    }

    /** `config_load`, from the file's contents. */
    method LoadText(text: bytes)
      requires Valid()
      modifies this, entries
      ensures Valid() && Table() == Load(text)
    {
      hide ParseLine, LineLength, CStr, Set, LoadFrom;
      count := 0;
      var line := new byte[LINE_ROOM + 1](_ => 0);
      var pos := 0;
      assert text[0..] == text;
      while pos < |text|
        invariant Valid() && pos <= |text| && fresh(line) && line.Length == LINE_ROOM + 1
        invariant LoadFrom(Table(), text[pos..]) == Load(text)
      {
        LoadNext(Table(), text[pos..]);
        var n := ReadLine(text, pos, line);
        Within(text, pos, n);
        var said := SplitLine(line);
        pos := pos + n;
        if said.Some? {
          if count >= MAX_ENTRIES {
            return;
          }
          SetStr(said.value.key, said.value.value);
        }
      }
      assert text[pos..] == [];
      LoadEnds(Table());
    }
  }

  lemma LoadNext(es: seq<Entry>, text: bytes)
    requires text != []
    ensures var n := LineLength(text, LINE_ROOM);
      0 < n <= |text| &&
      var said, rest := ParseLine(CStr(text[..n])), text[n..];
      LoadFrom(es, text) ==
        if said.None? then LoadFrom(es, rest)
        else if |es| >= MAX_ENTRIES then es
        else LoadFrom(Set(es, said.value.key, said.value.value), rest)
  {
    hide ParseLine, LineLength, CStr, Set;
  }

  lemma Within(s: bytes, p: nat, n: nat)
    requires p + n <= |s|
    ensures s[p..][n..] == s[p + n..] && s[p..][..n] == s[p..p + n]
  {
  }

  lemma LoadEnds(es: seq<Entry>)
    ensures LoadFrom(es, []) == es
  {
  }

  lemma FirstIs(es: seq<Entry>, key: bytes, k: nat)
    requires k < |es| && es[k].key == key && forall i :: 0 <= i < k ==> es[i].key != key
    ensures Find(es, key) == k
  {
    hide Find;
    assert 0 <= Find(es, key) <= k;
  }

  lemma {:induction false} SavedMore(es: seq<Entry>, e: Entry)
    ensures Saved(es + [e]) == Saved(es) + SavedLine(e)
  {
    hide SavedLine;
    if es == [] {
      assert [e][1..] == [];
    } else {
      assert (es + [e])[1..] == es[1..] + [e];
      SavedMore(es[1..], e);
    }
  }

  /** `fgets` into the line buffer. */
  method ReadLine(text: bytes, pos: nat, line: array<byte>) returns (n: nat)
    requires pos < |text| && line.Length == LINE_ROOM + 1
    modifies line
    ensures n == LineLength(text[pos..], LINE_ROOM)
    ensures 0 in line[..] && CStr(line[..]) == CStr(text[pos..pos + n])
  {
    hide CStr, LineLength;
    n := CopyLine(text, pos, line);
    line[n] := 0;
    assert line[..][..n] == text[pos..pos + n];
    BufferString(line[..], text[pos..pos + n]);
  }

  method CopyLine(text: bytes, pos: nat, line: array<byte>) returns (n: nat)
    requires pos < |text| && line.Length == LINE_ROOM + 1
    modifies line
    ensures n == LineLength(text[pos..], LINE_ROOM)
    ensures line[..n] == text[pos..pos + n]
  {
    hide LineLength;
    n := 0;
    while true
      invariant 0 <= n < LINE_ROOM && pos + n < |text|
      invariant forall i :: 0 <= i < n ==> line[i] == text[pos + i]
      invariant LineLength(text[pos..], LINE_ROOM) == n + LineLength(text[pos + n..], LINE_ROOM - n)
      decreases LINE_ROOM - n
    {
      var b := text[pos + n];
      line[n] := b;
      LineOnce(text[pos + n..], LINE_ROOM - n);
      assert text[pos + n..][1..] == text[pos + n + 1..];
      n := n + 1;
      if b == NEWLINE || pos + n == |text| || n == LINE_ROOM {
        return;
      }
    }
  }

  lemma LineOnce(text: bytes, room: nat)
    requires text != [] && room > 0
    ensures LineLength(text, room) ==
      if text[0] == NEWLINE || |text| == 1 || room == 1 then 1 else 1 + LineLength(text[1..], room - 1)
  {
  }

  lemma {:induction false} BufferString(b: bytes, s: bytes)
    requires |s| < |b| && b[..|s|] == s && b[|s|] == 0
    ensures 0 in b && CStr(b) == CStr(s)
    decreases |s|
  {
    if s == [] {
    } else {
      assert b[0] == b[..|s|][0] == s[0];
      if b[0] != 0 {
        assert b[1..][..|s| - 1] == s[1..];
        BufferString(b[1..], s[1..]);
      }
    }
  }
}
