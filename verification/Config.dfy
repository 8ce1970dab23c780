/** The configuration store: a bounded keyed table with a line-oriented save and load. */
module Config {
  import opened Bytes

  const MAX_ENTRIES: nat := 64
  const KEY_ROOM: nat := 63
  const VALUE_ROOM: nat := 127
  const LINE_ROOM: nat := 255
  const EQUALS: byte := 61
  const HASH: byte := 35

  datatype Entry = Entry(key: bytes, value: bytes)

  // ---- the table ----

  /** What `snprintf` keeps of a string. */
  function Cut(s: bytes, room: nat): (r: bytes)
    ensures |r| <= room && r <= s
    ensures |s| <= room ==> r == s
  {
    if |s| <= room then s else s[..room]
  }

  /** The first entry with this key, or -1. */
  function Find(es: seq<Entry>, key: bytes): (k: int)
    ensures -1 <= k < |es|
    ensures k >= 0 ==> es[k].key == key
    ensures forall i :: 0 <= i < |es| && (k < 0 || i < k) ==> es[i].key != key
  {
    if es == [] then -1
    else if es[0].key == key then 0
    else
      var k := Find(es[1..], key);
      assert forall i :: 0 < i < |es| ==> es[i] == es[1..][i - 1];
      if k < 0 then -1 else k + 1
  }

  /** `config_set_str` */
  function Set(es: seq<Entry>, key: bytes, value: bytes): (r: seq<Entry>)
    ensures |es| <= |r| <= |es| + 1
    ensures |es| <= MAX_ENTRIES ==> |r| <= MAX_ENTRIES
  {
    var k := Find(es, key);
    if k >= 0 then es[k := Entry(es[k].key, Cut(value, VALUE_ROOM))]
    else if |es| < MAX_ENTRIES then es + [Entry(Cut(key, KEY_ROOM), Cut(value, VALUE_ROOM))]
    else es
  }

  /** `config_get_str`, with None for the default. */
  function Get(es: seq<Entry>, key: bytes): Option<bytes> {
    var k := Find(es, key);
    if k >= 0 then Some(es[k].value) else None
  }

  predicate Distinct(es: seq<Entry>) {
    forall i, j :: 0 <= i < j < |es| ==> es[i].key != es[j].key
  }

  /** Keys and values are C strings that fit their fields. */
  predicate StoredEntry(e: Entry) {
    |e.key| <= KEY_ROOM && |e.value| <= VALUE_ROOM && 0 !in e.key && 0 !in e.value
  }

  predicate Stored(es: seq<Entry>) {
    |es| <= MAX_ENTRIES && forall i :: 0 <= i < |es| ==> StoredEntry(es[i])
  }

  predicate HasKey(es: seq<Entry>, key: bytes) { exists i :: 0 <= i < |es| && es[i].key == key }

  function AsMap(es: seq<Entry>): (m: map<bytes, bytes>)
    ensures forall k :: k in m <==> HasKey(es, k)
  {
    if es == [] then map[] else
    var last := es[|es| - 1];
    var m := AsMap(es[..|es| - 1]);
    KeysSplit(es);
    m[last.key := last.value]
  }

  lemma KeysSplit(es: seq<Entry>)
    requires es != []
    ensures forall k :: HasKey(es, k) <==> HasKey(es[..|es| - 1], k) || k == es[|es| - 1].key
  {
    var m := |es| - 1;
    assert es[..m] + [es[m]] == es;
    forall k ensures HasKey(es, k) <==> HasKey(es[..m], k) || k == es[m].key {
      if HasKey(es, k) {
        var i :| 0 <= i < |es| && es[i].key == k;
        assert i < m ==> es[..m][i].key == k;
      }
      if HasKey(es[..m], k) {
        var i :| 0 <= i < m && es[..m][i].key == k;
        assert es[i].key == k;
      }
    }
  }

  lemma {:induction false} AsMapAt(es: seq<Entry>, i: nat)
    requires Distinct(es) && i < |es|
    ensures es[i].key in AsMap(es) && AsMap(es)[es[i].key] == es[i].value
    decreases |es|
  {
    var m := |es| - 1;
    if i < m { AsMapAt(es[..m], i); }
  }

  /** Lookup in the table is lookup in the map. */
  lemma GetIsLookup(es: seq<Entry>, key: bytes)
    requires Distinct(es)
    ensures Get(es, key) == if key in AsMap(es) then Some(AsMap(es)[key]) else None
  {
    hide Find;
    var k := Find(es, key);
    if k >= 0 { AsMapAt(es, k); }
  }

  /** For keys that fit, setting is a bounded map update that keeps keys distinct. */
  lemma SetIsUpdate(es: seq<Entry>, key: bytes, value: bytes)
    requires Stored(es) && Distinct(es) && |key| <= KEY_ROOM && 0 !in key && 0 !in value
    ensures var after := Set(es, key, value);
      && Stored(after) && Distinct(after)
      && AsMap(after) ==
         if key in AsMap(es) || |es| < MAX_ENTRIES then AsMap(es)[key := Cut(value, VALUE_ROOM)] else AsMap(es)
  {
    hide Find, Cut, AsMap;
    var k, v := Find(es, key), Cut(value, VALUE_ROOM);
    if k >= 0 {
      UpdatedMap(es, k, v);
      UpdatedEntries(es, k, v);
    } else if |es| < MAX_ENTRIES {
      AppendedEntry(es, Entry(key, v));
    }
  }

  lemma UpdatedEntries(es: seq<Entry>, k: nat, v: bytes)
    requires Stored(es) && Distinct(es) && k < |es| && |v| <= VALUE_ROOM && 0 !in v
    ensures var after := es[k := Entry(es[k].key, v)]; Stored(after) && Distinct(after)
  {
  }

  lemma AppendedEntry(es: seq<Entry>, e: Entry)
    requires Stored(es) && Distinct(es) && |es| < MAX_ENTRIES && StoredEntry(e) && !HasKey(es, e.key)
    ensures Stored(es + [e]) && Distinct(es + [e]) && AsMap(es + [e]) == AsMap(es)[e.key := e.value]
  {
    hide AsMap, StoredEntry;
    MapAppended(es, e);
  }

  lemma MapAppended(es: seq<Entry>, e: Entry)
    ensures AsMap(es + [e]) == AsMap(es)[e.key := e.value]
  {
    assert (es + [e])[..|es|] == es;
  }

  lemma {:induction false} UpdatedMap(es: seq<Entry>, k: nat, v: bytes)
    requires Distinct(es) && k < |es|
    ensures AsMap(es[k := Entry(es[k].key, v)]) == AsMap(es)[es[k].key := v]
    decreases |es|
  {
    hide HasKey;
    var m, after := |es| - 1, es[k := Entry(es[k].key, v)];
    if k < m {
      UpdatedMap(es[..m], k, v);
      assert after[..m] == es[..m][k := Entry(es[k].key, v)];
    } else {
      assert after[..m] == es[..m];
    }
  }

  /**
   * Exactly when setting keeps the keys distinct: a key too long for its field is stored cut, without a second look.
   */
  lemma SetKeepsDistinct(es: seq<Entry>, key: bytes, value: bytes)
    requires Stored(es) && Distinct(es) && 0 !in key && 0 !in value
    ensures Distinct(Set(es, key, value)) <==>
      |key| <= KEY_ROOM || |es| == MAX_ENTRIES || !HasKey(es, Cut(key, KEY_ROOM))
  {
    hide Find, Cut;
    var after, short := Set(es, key, value), Cut(key, KEY_ROOM);
    if |key| <= KEY_ROOM {
      SetIsUpdate(es, key, value);
    } else if |es| < MAX_ENTRIES {
      assert after == es + [Entry(short, Cut(value, VALUE_ROOM))];
      if HasKey(es, short) {
        var i :| 0 <= i < |es| && es[i].key == short;
        assert after[i].key == after[|es|].key;
      }
    }
  }

  /** Exactly when a value set can be read back: the key fits, and there is an entry or room for it. */
  lemma SetThenGet(es: seq<Entry>, key: bytes, value: bytes)
    requires Stored(es) && Distinct(es) && 0 !in key && 0 !in value
    ensures Get(Set(es, key, value), key) == Some(Cut(value, VALUE_ROOM)) <==>
      |key| <= KEY_ROOM && (HasKey(es, key) || |es| < MAX_ENTRIES)
  {
    hide Find, Cut;
    var after := Set(es, key, value);
    if |key| <= KEY_ROOM {
      SetIsUpdate(es, key, value);
      GetIsLookup(after, key);
    } else {
      assert forall i :: 0 <= i < |after| ==> |after[i].key| <= KEY_ROOM;
    }
  }

  // ---- lines ----

  predicate IsSpace(b: byte) { b == 32 || 9 <= b <= 13 }

  function DropHead(s: bytes): (r: bytes)
    ensures |r| <= |s|
    ensures r != [] ==> !IsSpace(r[0])
    ensures forall i :: 0 <= i < |s| - |r| ==> IsSpace(s[i])
  {
    if s == [] || !IsSpace(s[0]) then s else DropHead(s[1..])
  }

  /** What is left is the end of the string. */
  lemma {:induction false} HeadDropped(s: bytes)
    ensures DropHead(s) == s[|s| - |DropHead(s)|..]
    decreases |s|
  {
    if s != [] && IsSpace(s[0]) {
      HeadDropped(s[1..]);
      assert s[1..][|s| - 1 - |DropHead(s)|..] == s[|s| - |DropHead(s)|..];
    }
  }

  function DropTail(s: bytes): (r: bytes)
    ensures r <= s
    ensures r != [] ==> !IsSpace(r[|r| - 1])
    ensures forall i :: |r| <= i < |s| ==> IsSpace(s[i])
  {
    if s == [] || !IsSpace(s[|s| - 1]) then s else DropTail(s[..|s| - 1])
  }

  lemma DropOne(s: bytes)
    requires s != [] && IsSpace(s[0])
    ensures DropHead(s) == DropHead(s[1..])
  {
  }

  lemma DropNone(s: bytes)
    requires s == [] || !IsSpace(s[0])
    ensures DropHead(s) == s
  {
  }

  lemma DropLast(s: bytes)
    requires s != [] && IsSpace(s[|s| - 1])
    ensures DropTail(s) == DropTail(s[..|s| - 1])
  {
  }

  lemma KeepLast(s: bytes)
    requires s != [] && !IsSpace(s[|s| - 1])
    ensures DropTail(s) == s
  {
  }

  /** `trim` */
  function Trimmed(s: bytes): bytes { DropTail(DropHead(s)) }

  /** Where the first `=` stands, or the length when there is none. */
  function EqualsAt(s: bytes): (i: nat)
    ensures i <= |s| && forall k :: 0 <= k < i ==> s[k] != EQUALS
    ensures i < |s| ==> s[i] == EQUALS
  {
    if s == [] || s[0] == EQUALS then 0 else
    var i := 1 + EqualsAt(s[1..]);
    assert forall k :: 0 < k < i ==> s[k] == s[1..][k - 1];
    i
  }

  /** What a line of the file says: a key and a value, or nothing. */
  function ParseLine(line: bytes): Option<Entry> { ParseTrimmed(Trimmed(line)) }

  function ParseTrimmed(p: bytes): Option<Entry> {
    if p == [] || p[0] == HASH || EqualsAt(p) == |p| then None
    else
      var key, value := Trimmed(p[..EqualsAt(p)]), Trimmed(p[EqualsAt(p) + 1..]);
      if key == [] then None else Some(Entry(key, value))
  }

  /** How much `fgets` takes: up to and including a newline, but at most 255 bytes. */
  function LineLength(text: bytes, room: nat): (n: nat)
    requires text != [] && room > 0
    ensures 0 < n <= |text| && n <= room
    decreases room
  {
    if text[0] == NEWLINE || |text| == 1 || room == 1 then 1 else 1 + LineLength(text[1..], room - 1)
  }

  /** `config_load` from a point in the file on. */
  function LoadFrom(es: seq<Entry>, text: bytes): seq<Entry>
    decreases |text|
  {
    if text == [] then es else
    var n := LineLength(text, LINE_ROOM);
    var said := ParseLine(CStr(text[..n]));
    if said.None? then LoadFrom(es, text[n..])
    else if |es| >= MAX_ENTRIES then es
    else LoadFrom(Set(es, said.value.key, said.value.value), text[n..])
  }

  function Load(text: bytes): seq<Entry> { LoadFrom([], text) }

  function SavedLine(e: Entry): bytes { e.key + [EQUALS] + e.value + [NEWLINE] }

  /** `config_save` */
  function Saved(es: seq<Entry>): bytes {
    if es == [] then [] else SavedLine(es[0]) + Saved(es[1..])
  }

  // ---- what survives a save and a load ----

  predicate Trim(s: bytes) { Trimmed(s) == s }

  /** One line of text each. */
  predicate OneLine(e: Entry) { NEWLINE !in e.key && NEWLINE !in e.value }

  /** What the parser reads as it was written. */
  predicate Legible(e: Entry) {
    0 < |e.key| && Trim(e.key) && Trim(e.value) && EQUALS !in e.key && e.key[0] != HASH
  }

  predicate Clean(es: seq<Entry>) {
    Distinct(es) && forall i :: 0 <= i < |es| ==> OneLine(es[i]) && Legible(es[i])
  }

  lemma TrimmedFacts(s: bytes)
    ensures |Trimmed(s)| <= |s|
    ensures Trimmed(s) != [] ==> !IsSpace(Trimmed(s)[0]) && !IsSpace(Trimmed(s)[|Trimmed(s)| - 1])
    ensures |Trimmed(s)| == |s| ==> Trimmed(s) == s
    ensures s != [] && IsSpace(s[|s| - 1]) ==> |Trimmed(s)| < |s|
    ensures forall b :: b in Trimmed(s) ==> b in s
  {
    hide DropHead, DropTail, IsSpace;
    var h, r := DropHead(s), Trimmed(s);
    HeadDropped(s);
    var k := |s| - |h|;
    assert h == s[k..] && r == h[..|r|];
    if r != [] { assert r[0] == h[0]; }
    if |r| == |s| { assert s[0..] == s; }
    forall b | b in r ensures b in s {
      var i :| 0 <= i < |r| && r[i] == b;
      assert s[k + i] == h[i] == r[i];
    }
  }

  lemma EqualsIsAt(s: bytes, i: nat)
    requires i < |s| && s[i] == EQUALS && forall k :: 0 <= k < i ==> s[k] != EQUALS
    ensures EqualsAt(s) == i
  {
    hide EqualsAt;
    var j := EqualsAt(s);
    assert j <= i;
  }

  lemma TrimOfLine(line: bytes)
    requires line != [] && line[|line| - 1] == NEWLINE && |Trimmed(line)| == |line| - 1
    ensures Trimmed(line) == line[..|line| - 1]
  {
    hide DropHead, DropTail;
    var h, p := DropHead(line), Trimmed(line);
    HeadDropped(line);
    assert p == h[..|p|];
    assert h != [] ==> h[|h| - 1] == line[|line| - 1];
    assert |h| == |line| ==> h == line;
  }

  /** Parsing and storing a saved line gives the entry again. */
  predicate ComesBack(e: Entry) {
    var said := ParseLine(SavedLine(e));
    said.Some? && Cut(said.value.key, KEY_ROOM) == e.key && Cut(said.value.value, VALUE_ROOM) == e.value
  }

  /** A saved line parses to what was saved exactly if the entry is legible. */
  lemma SavedLineBack(e: Entry)
    requires StoredEntry(e) && OneLine(e)
    ensures ComesBack(e) <==> Legible(e)
    ensures Legible(e) ==> ParseLine(SavedLine(e)) == Some(e)
  {
    hide ParseLine, Legible;
    if Legible(e) {
      LegibleParses(e);
    } else if ComesBack(e) {
      BackIsLegible(e);
    }
  }

  lemma LegibleParses(e: Entry)
    requires Legible(e)
    ensures ParseLine(SavedLine(e)) == Some(e)
  {
    hide EqualsAt, Trimmed;
    var line, p := SavedLine(e), e.key + [EQUALS] + e.value;
    TrimmedFacts(e.key);
    TrimmedFacts(e.value);
    assert line == p + [NEWLINE];
    TrimDropsNewline(p);
    assert p[..|e.key|] == e.key && p[|e.key| + 1..] == e.value;
    EqualsIsAt(p, |e.key|);
  }

  lemma TrimDropsNewline(p: bytes)
    requires p != [] && !IsSpace(p[0]) && !IsSpace(p[|p| - 1])
    ensures Trimmed(p + [NEWLINE]) == p
  {
    hide DropHead, DropTail;
    var line := p + [NEWLINE];
    assert line[0] == p[0] && line[..|line| - 1] == p;
    DropNone(line);
    DropLast(line);
    KeepLast(p);
  }

  lemma BackIsLegible(e: Entry)
    requires StoredEntry(e) && OneLine(e) && ComesBack(e)
    ensures Legible(e)
  {
    hide EqualsAt, Trimmed;
    var line, said := SavedLine(e), ParseLine(SavedLine(e));
    var p := Trimmed(line);
    FirstEquals(e);
    TrimmedFacts(line);
    TrimmedFacts(p[..EqualsAt(p)]);
    TrimmedFacts(p[EqualsAt(p) + 1..]);
    assert |said.value.key| <= EqualsAt(p) <= |e.key| <= KEY_ROOM;
    assert said.value.key == e.key;
    assert |e.value| <= |said.value.value|;
    TrimOfLine(line);
    assert p == e.key + [EQUALS] + e.value;
    assert p[..|e.key|] == e.key && p[|e.key| + 1..] == e.value;
  }

  /** The first equals sign the parser sees is no later than the one the save wrote. */
  lemma FirstEquals(e: Entry)
    ensures EqualsAt(Trimmed(SavedLine(e))) <= |e.key|
  {
    hide EqualsAt, DropHead, DropTail;
    var line := SavedLine(e);
    var h := DropHead(line);
    HeadDropped(line);
    var p := DropTail(h);
    var d, n := |line| - |h|, |e.key|;
    assert line[n] == EQUALS;
    assert d <= n;
    assert h[n - d] == EQUALS;
    assert n - d < |p| && p[n - d] == EQUALS;
    assert EqualsAt(p) <= n - d;
  }

  // ---- whole files ----

  lemma LineOfText(line: bytes, rest: bytes)
    requires NEWLINE !in line && |line| < LINE_ROOM
    ensures var text := line + [NEWLINE] + rest;
      LineLength(text, LINE_ROOM) == |line| + 1 && text[..|line| + 1] == line + [NEWLINE] && text[|line| + 1..] == rest
  {
    LineLengthIs(line, rest, LINE_ROOM);
  }

  lemma {:induction false} LineLengthIs(line: bytes, rest: bytes, room: nat)
    requires NEWLINE !in line && |line| < room
    ensures LineLength(line + [NEWLINE] + rest, room) == |line| + 1
    decreases |line|
  {
    var text := line + [NEWLINE] + rest;
    if line != [] {
      assert text[1..] == line[1..] + [NEWLINE] + rest;
      assert text[0] == line[0] && line[0] in line;
      LineLengthIs(line[1..], rest, room - 1);
    }
  }

  /** Loading a saved one-line entry, and then the rest. */
  lemma LoadStep(done: seq<Entry>, e: Entry, rest: bytes)
    requires StoredEntry(e) && OneLine(e)
    ensures var said := ParseLine(SavedLine(e));
      LoadFrom(done, SavedLine(e) + rest) ==
        if said.None? then LoadFrom(done, rest)
        else if |done| >= MAX_ENTRIES then done
        else LoadFrom(Set(done, said.value.key, said.value.value), rest)
  {
    hide ParseLine, Set, LineLength;
    var line := e.key + [EQUALS] + e.value;
    LineOfText(line, rest);
    assert SavedLine(e) + rest == line + [NEWLINE] + rest;
    assert SavedLine(e) == line + [NEWLINE];
    assert 0 !in SavedLine(e);
    CStrOfNulFree(SavedLine(e));
  }

  predicate AllOneLine(es: seq<Entry>) { forall i :: 0 <= i < |es| ==> StoredEntry(es[i]) && OneLine(es[i]) }

  /** What one saved line leaves in the table when it is appended. */
  predicate Lands(e: Entry, x: Entry) {
    var said := ParseLine(SavedLine(e));
    said.Some? && x == Entry(Cut(said.value.key, KEY_ROOM), Cut(said.value.value, VALUE_ROOM))
  }

  function SaidKey(e: Entry): bytes {
    var said := ParseLine(SavedLine(e));
    if said.Some? then said.value.key else []
  }

  /** Every line of `todo` was appended, in order, behind `done`. */
  predicate AllAppended(done: seq<Entry>, todo: seq<Entry>, r: seq<Entry>) {
    && |r| == |done| + |todo| && done <= r
    && forall i :: 0 <= i < |todo| ==> Lands(todo[i], r[|done| + i]) && Find(r[..|done| + i], SaidKey(todo[i])) < 0
  }

  /** A file of one-line entries loads to at most one entry a line, and to that many only if each line is appended. */
  lemma {:induction false} LoadLines(done: seq<Entry>, todo: seq<Entry>)
    requires AllOneLine(todo)
    ensures var r := LoadFrom(done, Saved(todo));
      |r| <= |done| + |todo| && (|r| == |done| + |todo| ==> AllAppended(done, todo, r))
    decreases |todo|
  {
    hide ParseLine, Find, LoadFrom, Cut, SavedLine, AllAppended;
    if todo == [] {
      LoadNothing(done);
    } else {
      var e, rest := todo[0], todo[1..];
      var said := ParseLine(SavedLine(e));
      SavedStep(todo);
      LoadStep(done, e, Saved(rest));
      if said.None? {
        LoadLines(done, rest);
      } else if |done| < MAX_ENTRIES {
        var next := Set(done, said.value.key, said.value.value);
        LoadLines(next, rest);
        if |next| > |done| && |LoadFrom(next, Saved(rest))| == |next| + |rest| {
          AppendedFirst(done, todo, LoadFrom(next, Saved(rest)));
        }
      }
    }
  }

  lemma AppendedFirst(done: seq<Entry>, todo: seq<Entry>, r: seq<Entry>)
    requires todo != [] && ParseLine(SavedLine(todo[0])).Some?
    requires var said := ParseLine(SavedLine(todo[0])).value;
      var next := Set(done, said.key, said.value);
      |next| > |done| && AllAppended(next, todo[1..], r)
    ensures AllAppended(done, todo, r)
  {
    hide ParseLine, Find, Cut, SavedLine;
    var said := ParseLine(SavedLine(todo[0])).value;
    var x := Entry(Cut(said.key, KEY_ROOM), Cut(said.value, VALUE_ROOM));
    assert Set(done, said.key, said.value) == done + [x];
    assert r[|done|] == (done + [x])[|done|];
    assert r[..|done|] == done;
    assert SaidKey(todo[0]) == said.key;
    forall i | 0 <= i < |todo|
      ensures Lands(todo[i], r[|done| + i]) && Find(r[..|done| + i], SaidKey(todo[i])) < 0
    {
      if i > 0 { assert todo[i] == todo[1..][i - 1]; }
    }
  }

  lemma LoadNothing(done: seq<Entry>)
    ensures LoadFrom(done, Saved([])) == done && AllAppended(done, [], done)
  {
  }

  lemma SavedStep(todo: seq<Entry>)
    requires todo != []
    ensures Saved(todo) == SavedLine(todo[0]) + Saved(todo[1..])
  {
  }

  /** Clean entries are appended as they were saved. */
  lemma {:induction false} LoadClean(done: seq<Entry>, todo: seq<Entry>)
    requires Stored(done + todo) && Clean(done + todo)
    ensures LoadFrom(done, Saved(todo)) == done + todo
    decreases |todo|
  {
    hide ParseLine, Find, LoadFrom, Cut, SavedLine, Legible;
    if todo == [] {
      LoadNothing(done);
      assert done + [] == done;
    } else {
      var e, rest, all := todo[0], todo[1..], done + todo;
      assert e == all[|done|];
      SavedStep(todo);
      LoadStep(done, e, Saved(rest));
      SavedLineBack(e);
      assert forall i :: 0 <= i < |done| ==> done[i] == all[i];
      assert Set(done, e.key, e.value) == done + [e];
      assert (done + [e]) + rest == all;
      LoadClean(done + [e], rest);
    }
  }

  // ---- everything a file loads to is one line ----

  lemma {:induction false} LineEnds(text: bytes, room: nat)
    requires text != [] && room > 0
    ensures NEWLINE !in text[..LineLength(text, room) - 1]
    decreases room
  {
    var n := LineLength(text, room);
    if n > 1 {
      LineEnds(text[1..], room - 1);
      assert text[..n - 1] == [text[0]] + text[1..][..n - 2];
    }
  }

  lemma ParsedIsOneLine(text: bytes)
    requires text != []
    ensures var said := ParseLine(CStr(text[..LineLength(text, LINE_ROOM)])); said.Some? ==> OneLine(said.value)
  {
    hide LineLength, CStr, EqualsAt, Trimmed;
    var n := LineLength(text, LINE_ROOM);
    LineEnds(text, LINE_ROOM);
    var s := CStr(text[..n]);
    var p := Trimmed(s);
    TrimmedIsOneLine(s, text[..n]);
    TrimmedFacts(p[..EqualsAt(p)]);
    if EqualsAt(p) < |p| { TrimmedFacts(p[EqualsAt(p) + 1..]); }
  }

  /** Only the last byte of a line can be a newline, and then it is trimmed. */
  lemma TrimmedIsOneLine(s: bytes, line: bytes)
    requires line != [] && s <= line && NEWLINE !in line[..|line| - 1]
    ensures NEWLINE !in Trimmed(s)
  {
    hide DropHead, DropTail;
    var h := DropHead(s);
    HeadDropped(s);
    var p := DropTail(h);
    forall i | 0 <= i < |p| ensures p[i] != NEWLINE {
      var j := |s| - |h| + i;
      assert p[i] == h[i] == s[j] == line[j];
      if j < |line| - 1 {
        assert line[..|line| - 1][j] != NEWLINE;
      } else {
        assert i == |p| - 1;
      }
    }
  }

  predicate OneLines(es: seq<Entry>) { forall i :: 0 <= i < |es| ==> OneLine(es[i]) }

  lemma SetOneLine(es: seq<Entry>, e: Entry)
    requires OneLines(es) && OneLine(e)
    ensures OneLines(Set(es, e.key, e.value))
  {
    hide Find;
  }

  lemma {:induction false} LoadedIsOneLine(es: seq<Entry>, text: bytes)
    requires OneLines(es)
    ensures OneLines(LoadFrom(es, text))
    decreases |text|
  {
    hide ParseLine, Set, LineLength, CStr, OneLines;
    if text != [] {
      var n := LineLength(text, LINE_ROOM);
      var said := ParseLine(CStr(text[..n]));
      ParsedIsOneLine(text);
      if said.None? {
        LoadedIsOneLine(es, text[n..]);
      } else if |es| < MAX_ENTRIES {
        SetOneLine(es, said.value);
        LoadedIsOneLine(Set(es, said.value.key, said.value.value), text[n..]);
      }
    }
  }

  /** A table survives being saved and loaded exactly if it is clean. */
  lemma LoadOfSaved(es: seq<Entry>)
    requires Stored(es)
    ensures Load(Saved(es)) == es <==> Clean(es)
  {
    if Clean(es) {
      assert [] + es == es;
      LoadClean([], es);
    } else if Load(Saved(es)) == es {
      SurvivorsAreClean(es);
    }
  }

  lemma SurvivorsAreClean(es: seq<Entry>)
    requires Stored(es) && Load(Saved(es)) == es
    ensures Clean(es)
  {
    hide ParseLine, Find, LoadFrom, Cut, SavedLine, Legible, Saved;
    LoadedIsOneLine([], Saved(es));
    LoadLines([], es);
    forall i | 0 <= i < |es| ensures Legible(es[i]) && Find(es[..i], es[i].key) < 0 {
      assert Lands(es[i], es[0 + i]);
      SavedLineBack(es[i]);
    }
    DistinctByFind(es);
  }

  lemma DistinctByFind(es: seq<Entry>)
    requires forall i :: 0 <= i < |es| ==> Find(es[..i], es[i].key) < 0
    ensures Distinct(es)
  {
    hide Find;
    forall i, j | 0 <= i < j < |es| ensures es[i].key != es[j].key {
      assert es[..j][i] == es[i];
    }
  }
}
