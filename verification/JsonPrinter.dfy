/** The printer of cJSON over a text buffer that grows by realloc or by allocate, copy and free. */
module JsonPrinter {
  import opened Bytes
  import opened JsonText
  import opened JsonHeap

  /** Where text buffers come from; the k-th request succeeds iff `grants(k)`. */
  class Arena {
    const grants: nat -> bool
    /** Whether `hooks.reallocate` is set. */
    const realloc: bool
    var calls: nat
    var refused: nat
    /** How many bytes have been read from behind the end of a block. */
    var strays: nat
    /** Buffers allocated and not yet freed. */
    var buffers: set<array<byte>>

    constructor (grants: nat -> bool, realloc: bool)
      ensures this.grants == grants && this.realloc == realloc && calls == 0 && refused == 0 && strays == 0 &&
        buffers == {}
    {
      this.grants, this.realloc, calls, refused, strays, buffers := grants, realloc, 0, 0, 0, {};
    }

    ghost predicate Generous() { forall k :: grants(k) }

    /** A read from behind the end of a block gives whatever lies there. */
    method Stray() returns (junk: byte)
      modifies this`strays
      ensures strays == old(strays) + 1
    {
      junk := *;
      strays := strays + 1;
    }

    method Allocate(size: nat) returns (a: array?<byte>)
      modifies this`calls, this`refused, this`buffers
      ensures calls == old(calls) + 1 && (a != null) == old(grants(calls))
      ensures refused == old(refused) + (if a == null then 1 else 0)
      ensures a == null ==> buffers == old(buffers)
      ensures a != null ==> fresh(a) && a !in old(buffers) && a.Length == size && buffers == old(buffers) + {a}
    {
      if grants(calls) {
        a := new byte[size];
        buffers := buffers + {a};
      } else {
        a := null;
        refused := refused + 1;
      }
      calls := calls + 1;
    }

    method Free(a: array<byte>)
      requires a in buffers
      modifies this`buffers
      ensures buffers == old(buffers) - {a}
    {
      buffers := buffers - {a};
    }

    /** On success the old block is gone and its contents moved, on failure nothing happened. */
    method Reallocate(a: array<byte>, size: nat) returns (r: array?<byte>)
      requires a in buffers
      modifies this`calls, this`refused, this`buffers
      ensures calls == old(calls) + 1 && (r != null) == old(grants(calls))
      ensures refused == old(refused) + (if r == null then 1 else 0)
      ensures r == null ==> buffers == old(buffers)
      ensures r != null ==> fresh(r) && r !in old(buffers) && r.Length == size && buffers == old(buffers) - {a} + {r}
      ensures r != null ==> forall i :: 0 <= i < size && i < a.Length ==> r[i] == a[i]
    {
      if grants(calls) {
        r := new byte[size];
        forall i | 0 <= i < size && i < a.Length { r[i] := a[i]; }
        buffers := buffers - {a} + {r};
      } else {
        r := null;
        refused := refused + 1;
      }
      calls := calls + 1;
    }
  }

  /**
   * Whether every request is granted, requests refused so far, stray reads done, and still due, how many bytes the
   * buffer may ever hold, the buffers that are nobody's business here, and the buffer if it was preallocated.
   */
  datatype Ledger = Ledger(
    generous: bool, refused: nat, done: nat, due: nat, limit: int, others: set<array<byte>>, own: array?<byte>)

  /** What every step keeps: a failed one may have thrown the buffer away, and a stray read due with it. */
  predicate Honest(was: Ledger, now: Ledger, ok: bool) {
    && now.limit == was.limit && now.others == was.others && now.own == was.own
    && now.refused >= was.refused && (was.own != null || was.generous ==> now.refused == was.refused)
    && now.generous == was.generous
    && was.done <= now.done && now.done + now.due <= was.done + was.due
    && (ok ==> now.done + now.due == was.done + was.due)
  }

  /** `printbuffer`. */
  class PrintBuffer {
    var buffer: array?<byte>
    var length: nat
    var offset: nat
    var depth: nat
    const noalloc: bool
    const format: bool
    const arena: Arena

    constructor (buffer: array<byte>, noalloc: bool, format: bool, arena: Arena)
      ensures this.buffer == buffer && length == buffer.Length && offset == 0 && depth == 0
      ensures this.noalloc == noalloc && this.format == format && this.arena == arena
    {
      this.buffer, this.length, this.noalloc, this.format, this.arena := buffer, buffer.Length, noalloc, format, arena;
      offset, depth := 0, 0;
    }

    /** The offset is a position in the buffer; only a buffer of length 0 has none. */
    ghost predicate Valid()
      reads this`buffer, this`length, this`offset, arena`buffers
    {
      buffer != null ==>
        && buffer.Length == length && length <= INT_MAX && (offset < length || offset == length == 0)
        && (noalloc <==> buffer !in arena.buffers)
    }

    /**
     * The account with the allocator. A block of length 0 that can only be grown by copying has a stray read ahead of
     * it, because the copy takes offset + 1 bytes.
     */
    ghost function Books(): Ledger
      reads this`buffer, this`length, arena`refused, arena`strays, arena`buffers
    {
      Ledger(arena.Generous(), arena.refused, arena.strays,
        if buffer != null && length == 0 && !noalloc && !arena.realloc then 1 else 0,
        if noalloc then length else INT_MAX,
        if noalloc || buffer == null then arena.buffers else arena.buffers - {buffer},
        if noalloc then buffer else null)
    }

    /** The text so far. */
    ghost function Written(): (w: bytes)
      requires Valid() && buffer != null
      reads this`buffer, this`length, this`offset, arena`buffers, buffer
      ensures |w| == offset
    {
      buffer[..offset]
    }

    /** `ensure`: room for `needed` bytes and one more behind the offset. */
    method Ensure(needed: nat) returns (ok: bool)
      requires Valid() && buffer != null
      modifies this`buffer, this`length, arena
      ensures Valid() && Honest(old(Books()), Books(), ok)
      ensures ok == (offset + needed + 1 <= Books().limit && Books().refused == old(Books().refused))
      ensures ok ==> buffer != null && offset + needed + 1 <= length && (buffer == old(buffer) || fresh(buffer))
      ensures ok ==> buffer[..offset] == old(buffer[..offset])
    {
      if length > 0 && offset >= length { return false; }
      if needed > INT_MAX { return false; }
      var wanted := needed + offset + 1;
      if wanted <= length { return true; }
      if noalloc { return false; }
      var newsize;
      if wanted > INT_MAX / 2 {
        if wanted <= INT_MAX { newsize := INT_MAX; } else { return false; }
      } else {
        newsize := wanted * 2;
      }
      ok := Grow(newsize);
    }

    /** Both growth paths keep what has been written. */
    method Grow(newsize: nat) returns (ok: bool)
      requires Valid() && buffer != null && !noalloc && length < newsize <= INT_MAX
      modifies this`buffer, this`length, arena
      ensures Valid() && Honest(old(Books()), Books(), ok)
      ensures ok == (Books().refused == old(Books().refused))
      ensures ok ==> buffer != null && length == newsize && fresh(buffer) && buffer[..offset] == old(buffer[..offset])
    {
      var newbuffer: array?<byte>;
      if arena.realloc {
        newbuffer := arena.Reallocate(buffer, newsize);
        if newbuffer == null {
          arena.Free(buffer);
          length, buffer := 0, null;
          return false;
        }
      } else {
        newbuffer := arena.Allocate(newsize);
        if newbuffer == null {
          arena.Free(buffer);
          length, buffer := 0, null;
          return false;
        }
        var i := 0;
        while i < offset + 1
          invariant 0 <= i <= offset + 1
          invariant forall k :: 0 <= k < i && k < length ==> newbuffer[k] == buffer[k]
          invariant arena.strays == old(arena.strays) + (if length == 0 && i == 1 then 1 else 0)
          modifies newbuffer, arena`strays
        {
          if i < length { newbuffer[i] := buffer[i]; } else { newbuffer[i] := arena.Stray(); }
          i := i + 1;
        }
        assert newbuffer[..offset] == buffer[..offset];
        arena.Free(buffer);
      }
      length, buffer := newsize, newbuffer;
      ok := true;
    }

    /** Store `text` behind the offset, which stays where it is. */
    method Put(text: bytes)
      requires buffer != null && offset + |text| <= buffer.Length
      modifies buffer
      ensures buffer[..offset + |text|] == old(buffer[..offset]) + text
    {
      var i := 0;
      while i < |text|
        invariant 0 <= i <= |text| && buffer[..offset + i] == old(buffer[..offset]) + text[..i]
      {
        buffer[offset + i] := text[i];
        i := i + 1;
      }
      assert text[..i] == text;
    }

    /** Ask for `needed` bytes and write `text` into them. */
    method Append(needed: nat, text: bytes) returns (ok: bool)
      requires Valid() && buffer != null && |text| <= needed
      modifies this`buffer, this`length, arena, buffer
      ensures Valid() && Honest(old(Books()), Books(), ok)
      ensures ok == (offset + needed + 1 <= Books().limit && Books().refused == old(Books().refused))
      ensures ok ==> buffer != null && offset + needed + 1 <= length && (buffer == old(buffer) || fresh(buffer))
      ensures ok ==> buffer[..offset + |text|] == old(buffer[..offset]) + text
    {
      ok := Ensure(needed);
      if ok { Put(text); }
    }

    /** Write `text`, with a NUL behind it if `nul`, and move the offset behind the text. */
    method Advance(needed: nat, text: bytes, nul: bool) returns (ok: bool)
      requires Valid() && buffer != null && |text| + (if nul then 1 else 0) <= needed
      modifies this`buffer, this`length, this`offset, arena, buffer
      ensures Valid() && Honest(old(Books()), Books(), ok)
      ensures ok == (old(offset) + needed + 1 <= Books().limit && Books().refused == old(Books().refused))
      ensures ok ==> buffer != null && (buffer == old(buffer) || fresh(buffer))
      ensures ok ==> offset == old(offset) + |text| < length && Written() == old(Written()) + text
    {
      ghost var before := buffer[..offset];
      ok := Append(needed, text + (if nul then [0] else []));
      if !ok { return; }
      offset := offset + |text|;
      assert buffer[..offset] == (before + (text + (if nul then [0] else [])))[..offset] == before + text;
    }

    /** The same with a NUL behind the text, which is what `strcpy` writes. */
    method AppendTerminated(needed: nat, text: bytes) returns (ok: bool)
      requires Valid() && buffer != null && |text| + 1 == needed
      modifies this`buffer, this`length, arena, buffer
      ensures Valid() && Honest(old(Books()), Books(), ok)
      ensures ok == (offset + needed + 1 <= Books().limit && Books().refused == old(Books().refused))
      ensures ok ==> Printed(old(Written()), text) && (buffer == old(buffer) || fresh(buffer))
    {
      ok := Append(needed, text + [0]);
      if ok { PrefixOf(buffer[..offset + needed], old(buffer[..offset]), text, 0); }
    }

    /** The closing bracket of a text that began at the end of `before` and stands at `body` so far. */
    method AppendClose(close: bytes, ghost before: bytes, ghost body: bytes) returns (ok: bool)
      requires Valid() && buffer != null && Written() == before + body
      modifies this`buffer, this`length, arena, buffer
      ensures Valid() && Honest(old(Books()), Books(), ok)
      ensures ok == (|before| + |body + close| + 2 <= Books().limit && Books().refused == old(Books().refused))
      ensures ok ==> Printed(before, body + close) && (buffer == old(buffer) || fresh(buffer))
    {
      ok := AppendTerminated(|close| + 1, close);
      assert before + body + close == before + (body + close);
    }

    /** What a successful print of `text` leaves behind: it stands after `before`, NUL-terminated. */
    ghost predicate Printed(before: bytes, text: bytes)
      reads this`buffer, this`length, this`offset, buffer
    {
      && buffer != null && buffer.Length == length && |before| <= offset <= |before| + |text|
      && |before| + |text| + 2 <= length
      && buffer[..|before| + |text|] == before + text && buffer[|before| + |text|] == 0
    }

    /** `update_offset`: `strlen` finds the end of what was just printed. */
    method UpdateOffset(ghost end: nat)
      requires Valid() && buffer != null && offset <= end < length && buffer[end] == 0
      requires forall k :: offset <= k < end ==> buffer[k] != 0
      modifies this`offset
      ensures offset == end
    {
      var strlen := 0;
      while buffer[offset + strlen] != 0
        invariant offset + strlen <= end
        decreases end - offset - strlen
      {
        strlen := strlen + 1;
      }
      offset := offset + strlen;
    }

    // ---- strings and numbers ----

    /** `print_string_ptr` on the string at `p` in `b`; NULL prints as an empty string. */
    method PrintStringPtr(b: Blocks, p: Ptr, ghost s: bytes) returns (ok: bool)
      requires Valid() && buffer != null && StringAt(b, p, s)
      modifies this`buffer, this`length, arena, buffer
      ensures Valid() && Honest(old(Books()), Books(), ok)
      ensures ok == (offset + |Quoted(s)| + 2 <= Books().limit && Books().refused == old(Books().refused))
      ensures ok ==> Printed(old(Written()), Quoted(s)) && (buffer == old(buffer) || fresh(buffer))
    {
      hide Valid, Books, Honest, Escape, CStr, Quoted;
      QuotedNothing();
      ghost var before := Written();
      if p == NIL {
        ok := AppendTerminated(3, Quoted([]));
        return;
      }
      var count, escapes := CountEscapes(b[p], s);
      ok := QuoteString(b[p], count + escapes, escapes, s);
      if ok { QuotedPrinted(before, s); }
    }

    lemma QuotedPrinted(before: bytes, s: bytes)
      requires Valid() && buffer != null && |before| == offset && offset + |Quoted(s)| + 2 <= length
      requires buffer[..offset + |Quoted(s)| + 1] == before + (Quoted(s) + [0])
      ensures Printed(before, Quoted(s))
    {
      hide Quoted;
      PrefixOf(buffer[..offset + |Quoted(s)| + 1], before, Quoted(s), 0);
    }

    /** Reserve the length computed before and write the quoted string. */
    method QuoteString(input: bytes, outputLength: nat, escapes: nat, ghost s: bytes) returns (ok: bool)
      requires Valid() && buffer != null
      requires CStr(input) == s && |s| < |input| && outputLength == |Escape(s)| && (escapes == 0 ==> Escape(s) == s)
      modifies this`buffer, this`length, arena, buffer
      ensures Valid() && Honest(old(Books()), Books(), ok)
      ensures ok == (offset + |Quoted(s)| + 2 <= Books().limit && Books().refused == old(Books().refused))
      ensures ok ==> buffer != null && offset + |Quoted(s)| + 2 <= length && (buffer == old(buffer) || fresh(buffer))
      ensures ok ==> buffer[..offset + |Quoted(s)| + 1] == old(buffer[..offset]) + (Quoted(s) + [0])
    {
      hide Escape, CStr, Quoted;
      QuotedLength(s);
      ok := Ensure(outputLength + 3);
      if ok { WriteQuoted(input, outputLength, escapes, s); }
    }

    /** The fast path when nothing is escaped, the slow path otherwise; both write the same thing. */
    method WriteQuoted(input: bytes, outputLength: nat, escapes: nat, ghost s: bytes)
      requires buffer != null && CStr(input) == s && |s| < |input| && outputLength == |Escape(s)|
      requires escapes == 0 ==> Escape(s) == s
      requires offset + outputLength + 3 <= buffer.Length
      modifies buffer
      ensures buffer[..offset + outputLength + 3] == old(buffer[..offset]) + (Quoted(s) + [0])
    {
      hide Escape, CStr;
      if escapes == 0 {
        StringBytes(input, s);
        Put([QUOTE] + input[..outputLength] + [QUOTE, 0]);
        assert [QUOTE] + input[..outputLength] + [QUOTE, 0] == Quoted(s) + [0];
      } else {
        CopyEscaped(input, outputLength, s);
      }
    }

    /** First loop of `print_string_ptr`: the bytes of the string and the bytes escaping adds. */
    method CountEscapes(input: bytes, ghost s: bytes) returns (count: nat, escapes: nat)
      requires CStr(input) == s && |s| < |input|
      ensures count == |s| && count + escapes == |Escape(s)|
      ensures escapes == 0 ==> Escape(s) == s
    {
      hide Escape, EscapeByte, CStr;
      StringBytes(input, s);
      EscapeNothing();
      assert s[..0] == [];
      count, escapes := 0, 0;
      while input[count] != 0
        invariant 0 <= count <= |s|
        invariant count + escapes == |Escape(s[..count])|
        invariant escapes == 0 ==> Escape(s[..count]) == s[..count]
        decreases |s| - count
      {
        EscapeFirst(s, count);
        EscapedSize(s[count]);
        var c := input[count];
        if c == QUOTE || c == BACKSLASH || c == 8 || c == 12 || c == 10 || c == 13 || c == 9 {
          escapes := escapes + 1;
        } else if c < 32 {
          escapes := escapes + 5;
        }
        count := count + 1;
      }
      assert s[..count] == s;
    }

    /** The slow path: escape byte by byte, then the closing quote and the NUL at the length computed before. */
    method CopyEscaped(input: bytes, outputLength: nat, ghost s: bytes)
      requires buffer != null && CStr(input) == s && |s| < |input| && outputLength == |Escape(s)|
      requires offset + outputLength + 3 <= buffer.Length
      modifies buffer
      ensures buffer[..offset + outputLength + 3] == old(buffer[..offset]) + (Quoted(s) + [0])
    {
      hide Escape, EscapeByte, Quoted, CStr;
      ghost var before := buffer[..offset];
      StringBytes(input, s);
      buffer[offset] := QUOTE;
      var i, o := 0, offset + 1;
      NothingEscaped(before, s);
      while input[i] != 0
        invariant 0 <= i <= |s| && |Escape(s[..i])| <= outputLength && o == offset + 1 + |Escape(s[..i])|
        invariant buffer[..o] == Opened(before, s[..i])
        decreases |s| - i
      {
        EscapePrefix(s, i + 1);
        EscapeOne(before, s, i);
        var n := WriteEscaped(o, input[i]);
        o := o + n;
        i := i + 1;
      }
      assert s[..i] == s;
      CloseQuoted(offset + outputLength + 1, before, s);
    }

    method CloseQuoted(o: nat, ghost before: bytes, ghost s: bytes)
      requires buffer != null && o + 2 <= buffer.Length && buffer[..o] == Opened(before, s)
      modifies buffer
      ensures buffer[..o + 2] == before + (Quoted(s) + [0])
    {
      hide Escape;
      buffer[o] := QUOTE;
      buffer[o + 1] := 0;
      assert buffer[..o + 2] == before + ([QUOTE] + Escape(s)) + [QUOTE, 0];
      assert before + ([QUOTE] + Escape(s)) + [QUOTE, 0] == before + (Quoted(s) + [0]);
    }

    /** One byte, escaped if it has to be. */
    method WriteEscaped(o: nat, c: byte) returns (n: nat)
      requires buffer != null && o + |EscapeByte(c)| <= buffer.Length
      modifies buffer
      ensures n == |EscapeByte(c)| && buffer[..o + n] == old(buffer[..o]) + EscapeByte(c)
    {
      if c > 31 && c != QUOTE && c != BACKSLASH {
        buffer[o] := c;
        n := 1;
      } else {
        buffer[o] := BACKSLASH;
        if c == BACKSLASH { buffer[o + 1] := BACKSLASH; }
        else if c == QUOTE { buffer[o + 1] := QUOTE; }
        else if c == 8 { buffer[o + 1] := 98; }
        else if c == 12 { buffer[o + 1] := 102; }
        else if c == 10 { buffer[o + 1] := 110; }
        else if c == 13 { buffer[o + 1] := 114; }
        else if c == 9 { buffer[o + 1] := 116; }
        else {
          WriteUnicode(o + 1, c);
          return 6;
        }
        n := 2;
      }
    }

    /** The "u00xx" of a control character. */
    method WriteUnicode(o: nat, c: byte)
      requires buffer != null && o + 5 <= buffer.Length && c < 32
      modifies buffer
      ensures buffer[..o + 5] == old(buffer[..o]) + [117, 48, 48, HexDigit(c / 16), HexDigit(c % 16)]
    {
      hide HexDigit;
      buffer[o] := 117;
      buffer[o + 1] := 48;
      buffer[o + 2] := 48;
      buffer[o + 3] := HexDigit(c / 16);
      buffer[o + 4] := HexDigit(c % 16);
    }

    /** `print_number` of a number that equals its `valueint`. */
    method PrintNumber(d: real, i: int) returns (ok: bool)
      requires Valid() && buffer != null && d == i as real
      modifies this`buffer, this`length, this`offset, arena, buffer
      ensures Valid() && Honest(old(Books()), Books(), ok)
      ensures ok == (old(offset) + |IntText(i)| + 2 <= Books().limit && Books().refused == old(Books().refused))
      ensures ok ==> Printed(old(Written()), IntText(i)) && (buffer == old(buffer) || fresh(buffer))
    {
      var text := IntText(i);
      ok := AppendTerminated(|text| + 1, text);
      if ok { offset := offset + |text|; }
    }

    // ---- trees ----

    /** The tree may be printed here: it is not nested too deeply and the buffer may grow to hold it. */
    ghost predicate Fits(t: Json, at: nat)
      reads this, arena
    {
      depth + Nesting(t) <= NESTING_LIMIT && at + |Text(t, format, depth)| + 2 <= Books().limit
    }

    /** `print_value`. */
    method PrintValue(n: Nodes, b: Blocks, item: Ptr, ghost s: Shape, ghost t: Json) returns (ok: bool)
      requires Valid() && buffer != null && depth <= NESTING_LIMIT
      requires Plain(t) && Owns(n, b, s) && Reads(n, b, s, t) && item == s.p
      modifies this`buffer, this`length, this`offset, this`depth, arena, buffer
      ensures Valid() && Honest(old(Books()), Books(), ok)
      ensures ok == (old(Fits(t, offset)) && Books().refused == old(Books().refused))
      ensures ok ==> depth == old(depth) && (buffer == old(buffer) || fresh(buffer))
      ensures ok ==> Printed(old(Written()), Text(t, format, old(depth)))
      decreases t, 1
    {
      hide Valid, Books, Written, Printed, Quoted, IntText, StringAt, ItemsText, MembersText, ReadsItems, ReadsMembers,
           Ring, OwnsList, PlainItems, PlainMembers, NestingItems, NestingMembers, Fp, FpList;
      match n[item].kind
      case KNull => ok := AppendTerminated(5, NULL_TEXT);
      case KFalse => ok := AppendTerminated(6, FALSE_TEXT);
      case KTrue => ok := AppendTerminated(5, TRUE_TEXT);
      case KNumber => ok := PrintNumber(n[item].d, n[item].i);
      case KString => ok := PrintStringPtr(b, n[item].vs, t.s);
      case KArray => ok := PrintArray(n, b, item, s, t.items);
      case KObject => ok := PrintObject(n, b, item, s, t.members);
    }

    /** `print_value` followed by `update_offset`. */
    method PrintChild(n: Nodes, b: Blocks, item: Ptr, ghost s: Shape, ghost t: Json) returns (ok: bool)
      requires Valid() && buffer != null && depth <= NESTING_LIMIT
      requires Plain(t) && Owns(n, b, s) && Reads(n, b, s, t) && item == s.p
      modifies this`buffer, this`length, this`offset, this`depth, arena, buffer
      ensures Valid() && Honest(old(Books()), Books(), ok)
      ensures ok == (old(Fits(t, offset)) && Books().refused == old(Books().refused))
      ensures ok ==> depth == old(depth) && buffer != null && (buffer == old(buffer) || fresh(buffer))
      ensures ok ==> offset == old(offset) + |Text(t, format, depth)| && offset + 2 <= length && buffer[offset] == 0
      ensures ok ==> Written() == old(Written()) + Text(t, format, depth)
      decreases t, 2
    {
      hide Text, Reads, Owns, Nesting, Plain;
      ghost var before, text := Written(), Text(t, format, depth);
      ok := PrintValue(n, b, item, s, t);
      if !ok { return; }
      TextNulFree(t, format, depth);
      NoNulBefore(buffer[..|before| + |text|], before, text);
      UpdateOffset(|before| + |text|);
    }

    /** `print_string_ptr` followed by `update_offset`. */
    method PrintKey(b: Blocks, p: Ptr, ghost key: bytes) returns (ok: bool)
      requires Valid() && buffer != null && StringAt(b, p, key)
      modifies this`buffer, this`length, this`offset, arena, buffer
      ensures Valid() && Honest(old(Books()), Books(), ok)
      ensures ok == (old(offset) + |Quoted(key)| + 2 <= Books().limit && Books().refused == old(Books().refused))
      ensures ok ==> buffer != null && (buffer == old(buffer) || fresh(buffer))
      ensures ok ==> offset == old(offset) + |Quoted(key)| && offset + 2 <= length
      ensures ok ==> Written() == old(Written()) + Quoted(key)
    {
      hide Quoted, StringAt;
      ghost var before, text := Written(), Quoted(key);
      ok := PrintStringPtr(b, p, key);
      if !ok { return; }
      QuotedNulFree(key);
      NoNulBefore(buffer[..|before| + |text|], before, text);
      UpdateOffset(|before| + |text|);
    }

    /** `print_array`. */
    method PrintArray(n: Nodes, b: Blocks, item: Ptr, ghost s: Shape, ghost items: seq<Json>) returns (ok: bool)
      requires Valid() && buffer != null && depth <= NESTING_LIMIT
      requires PlainItems(items) && Owns(n, b, s) && Reads(n, b, s, Array(items)) && item == s.p
      modifies this`buffer, this`length, this`offset, this`depth, arena, buffer
      ensures Valid() && Honest(old(Books()), Books(), ok)
      ensures ok == (old(Fits(Array(items), offset)) && Books().refused == old(Books().refused))
      ensures ok ==> depth == old(depth) && (buffer == old(buffer) || fresh(buffer))
      ensures ok ==> Printed(old(Written()), Text(Array(items), format, old(depth)))
      decreases items, 1
    {
      hide Valid, Books, Written, Printed, ItemsText, ReadsItems, OwnsList, PlainItems, Owns, Reads, Text, Nesting,
           NestingItems, Head;
      ArrayParts(n, b, s, items, format, depth);
      ok := false;
      if depth >= NESTING_LIMIT { return; }
      ghost var before, inner := Written(), ItemsText(items, format, depth + 1);
      ok := Advance(1, [LBRACKET], false);
      if !ok { return; }
      depth := depth + 1;
      ok := PrintItems(n, b, n[item].child, s.kids, items);
      if !ok { return; }
      Assoc3(before, [LBRACKET], inner);
      ok := AppendClose([RBRACKET], before, [LBRACKET] + inner);
      if ok { depth := depth - 1; }
    }

    /** The loop of `print_array` over the child list. */
    method PrintItems(n: Nodes, b: Blocks, first: Ptr, ghost kids: seq<Shape>, ghost items: seq<Json>)
      returns (ok: bool)
      requires Valid() && buffer != null && 0 < depth <= NESTING_LIMIT && offset < length
      requires PlainItems(items) && OwnsList(n, b, kids) && ReadsItems(n, b, kids, items) && first == Head(kids)
      modifies this`buffer, this`length, this`offset, this`depth, arena, buffer
      ensures Valid() && Honest(old(Books()), Books(), ok)
      ensures var text := ItemsText(items, format, old(depth));
        && (ok ==> Books().refused == old(Books().refused) && old(depth) + NestingItems(items) <= NESTING_LIMIT
                   && buffer != null && (buffer == old(buffer) || fresh(buffer)) && depth == old(depth)
                   && offset == old(offset) + |text| < length && Written() == old(Written()) + text)
        && (!ok ==> Books().refused != old(Books().refused) || old(depth) + NestingItems(items) > NESTING_LIMIT
                    || old(offset) + |text| + 2 > Books().limit)
      decreases items, 0
    {
      hide Valid, Books, Written, Printed, Text, Plain, Nesting, Owns, Reads, OwnsList, ReadsItems, ItemsText,
           PlainItems, NestingItems;
      NoItems(format, depth);
      FirstOfList(n, b, kids);
      ItemsMatch(n, b, kids, items);
      var current := first;
      ghost var i := 0;
      ghost var before, d := Written(), depth;
      assert items[0..] == items;
      while current != NIL
        invariant 0 <= i <= |items| && current == (if i < |kids| then kids[i].p else NIL) &&
          (current == NIL <==> i == |kids|)
        invariant Valid() && buffer != null && offset < length && depth == d && (buffer == old(buffer) || fresh(buffer))
        invariant Honest(old(Books()), Books(), true) && Books().refused == old(Books().refused)
        invariant Written() + ItemsText(items[i..], format, d) == before + ItemsText(items, format, d)
        invariant PlainItems(items[i..])
        invariant d + NestingItems(items) <= NESTING_LIMIT <==> d + NestingItems(items[i..]) <= NESTING_LIMIT
        decreases |items| - i
      {
        ghost var w := Written();
        ItemsAt(n, b, kids, items, i, format, d);
        var next := n[current].next;
        ok := PrintItem(n, b, current, kids[i], items[i], next != NIL);
        if !ok { return; }
        RestAfter(w, ItemText(items, i, format, d), ItemsText(items[i + 1..], format, d), Written(), before,
                  ItemsText(items, format, d));
        current := next;
        i := i + 1;
      }
      assert items[i..] == [];
      ok := true;
    }

    /** `print_object`. */
    method PrintObject(n: Nodes, b: Blocks, item: Ptr, ghost s: Shape, ghost members: seq<Member>) returns (ok: bool)
      requires Valid() && buffer != null && depth <= NESTING_LIMIT
      requires PlainMembers(members) && Owns(n, b, s) && Reads(n, b, s, Object(members)) && item == s.p
      modifies this`buffer, this`length, this`offset, this`depth, arena, buffer
      ensures Valid() && Honest(old(Books()), Books(), ok)
      ensures ok == (old(Fits(Object(members), offset)) && Books().refused == old(Books().refused))
      ensures ok ==> depth == old(depth) && (buffer == old(buffer) || fresh(buffer))
      ensures ok ==> Printed(old(Written()), Text(Object(members), format, old(depth)))
      decreases members, 1
    {
      hide Valid, Books, Written, Printed, MembersText, ReadsMembers, OwnsList, PlainMembers, Owns, Reads, Text,
           Nesting, ObjectOpen, ObjectClose, NestingMembers, Head;
      ObjectParts(n, b, s, members, format, depth);
      ok := false;
      if depth >= NESTING_LIMIT { return; }
      ghost var before, inner := Written(), MembersText(members, format, depth + 1);
      var open := ObjectOpen(format);
      ok := Advance(|open| + 1, open, false);
      if !ok { return; }
      depth := depth + 1;
      ok := PrintMembers(n, b, n[item].child, s.kids, members);
      if !ok { return; }
      Assoc3(before, open, inner);
      ok := AppendClose(ObjectClose(format, depth - 1), before, open + inner);
      if ok { depth := depth - 1; }
    }

    /** The loop of `print_object` over the child list. */
    method PrintMembers(n: Nodes, b: Blocks, first: Ptr, ghost kids: seq<Shape>, ghost members: seq<Member>)
      returns (ok: bool)
      requires Valid() && buffer != null && 0 < depth <= NESTING_LIMIT && offset < length
      requires PlainMembers(members) && OwnsList(n, b, kids) && ReadsMembers(n, b, kids, members) && first == Head(kids)
      modifies this`buffer, this`length, this`offset, this`depth, arena, buffer
      ensures Valid() && Honest(old(Books()), Books(), ok)
      ensures var text := MembersText(members, format, old(depth));
        && (ok ==> Books().refused == old(Books().refused) && old(depth) + NestingMembers(members) <= NESTING_LIMIT
                   && buffer != null && (buffer == old(buffer) || fresh(buffer)) && depth == old(depth)
                   && offset == old(offset) + |text| < length && Written() == old(Written()) + text)
        && (!ok ==> Books().refused != old(Books().refused) || old(depth) + NestingMembers(members) > NESTING_LIMIT
                    || old(offset) + |text| + 2 > Books().limit)
      decreases members, 0
    {
      hide Valid, Books, Written, Printed, MemberText, Plain, Nesting, Owns, Reads, OwnsList, ReadsMembers,
           MembersText, PlainMembers, NestingMembers, StringAt;
      NoItems(format, depth);
      FirstOfList(n, b, kids);
      MembersMatch(n, b, kids, members);
      var current := first;
      ghost var i := 0;
      ghost var before, d := Written(), depth;
      assert members[0..] == members;
      while current != NIL
        invariant 0 <= i <= |members| && current == (if i < |kids| then kids[i].p else NIL) &&
          (current == NIL <==> i == |kids|)
        invariant Valid() && buffer != null && offset < length && depth == d && (buffer == old(buffer) || fresh(buffer))
        invariant Honest(old(Books()), Books(), true) && Books().refused == old(Books().refused)
        invariant Written() + MembersText(members[i..], format, d) == before + MembersText(members, format, d)
        invariant PlainMembers(members[i..])
        invariant d + NestingMembers(members) <= NESTING_LIMIT <==> d + NestingMembers(members[i..]) <= NESTING_LIMIT
        decreases |members| - i
      {
        ghost var w := Written();
        MembersAt(n, b, kids, members, i, format, d);
        ok := PrintMember(n, b, current, kids[i], members[i]);
        if !ok { return; }
        RestAfter(w, MemberText(members[i], format, d, i + 1 < |members|), MembersText(members[i + 1..], format, d),
                  Written(), before, MembersText(members, format, d));
        current := n[current].next;
        i := i + 1;
      }
      assert members[i..] == [];
      ok := true;
    }

    /** The tabs in front of a member. */
    method PrintIndent() returns (ok: bool)
      requires Valid() && buffer != null && offset < length
      modifies this`buffer, this`length, this`offset, arena, buffer
      ensures Valid() && Honest(old(Books()), Books(), ok)
      ensures ok ==> Books().refused == old(Books().refused)
      ensures !ok ==>
        Books().refused != old(Books().refused) || old(offset) + |Indent(format, depth)| + 1 > Books().limit
      ensures ok ==> buffer != null && offset < length && (buffer == old(buffer) || fresh(buffer))
      ensures ok ==> offset == old(offset) + |Indent(format, depth)|
      ensures ok ==> Written() == old(Written()) + Indent(format, depth)
    {
      hide Valid, Books, Written;
      ok := true;
      if format {
        ok := Advance(depth, Tabs(depth), false);
      } else {
        assert Written() + [] == Written();
      }
    }

    /** Tabs, key and colon. */
    method PrintName(b: Blocks, p: Ptr, ghost key: bytes) returns (ok: bool)
      requires Valid() && buffer != null && offset < length && StringAt(b, p, key)
      modifies this`buffer, this`length, this`offset, arena, buffer
      ensures Valid() && Honest(old(Books()), Books(), ok)
      ensures ok ==> Books().refused == old(Books().refused)
      ensures !ok ==> Books().refused != old(Books().refused) ||
                      old(offset) + |NameText(key, format, depth)| + 1 > Books().limit
      ensures ok ==> buffer != null && offset < length && (buffer == old(buffer) || fresh(buffer))
      ensures ok ==> offset == old(offset) + |NameText(key, format, depth)|
      ensures ok ==> Written() == old(Written()) + NameText(key, format, depth)
    {
      hide Valid, Books, Written, StringAt, Quoted, Indent;
      ghost var before := Written();
      Assoc4(before, Indent(format, depth), Quoted(key), KeySep(format));
      ok := PrintIndent();
      if !ok { return; }
      ok := PrintKey(b, p, key);
      if !ok { return; }
      ok := Advance(|KeySep(format)|, KeySep(format), false);
    }

    /** One round of that loop: tabs, key, colon, value, comma and newline. */
    method PrintMember(n: Nodes, b: Blocks, current: Ptr, ghost s: Shape, ghost m: Member) returns (ok: bool)
      requires Valid() && buffer != null && 0 < depth <= NESTING_LIMIT && offset < length
      requires Plain(m.value) && Owns(n, b, s) && Reads(n, b, s, m.value) && current == s.p
      requires current in n && StringAt(b, n[current].name, m.key)
      modifies this`buffer, this`length, this`offset, this`depth, arena, buffer
      ensures Valid() && Honest(old(Books()), Books(), ok)
      ensures var text := MemberText(m, format, old(depth), n[current].next != NIL);
        && ok == (old(depth) + Nesting(m.value) <= NESTING_LIMIT && old(offset) + |text| + 2 <= Books().limit
                  && Books().refused == old(Books().refused))
        && (ok ==> buffer != null && (buffer == old(buffer) || fresh(buffer)) && depth == old(depth)
                   && offset == old(offset) + |text| < length && Written() == old(Written()) + text)
      decreases m, 3
    {
      hide Valid, Books, Written, Printed, Plain, Nesting, Owns, Reads, StringAt, Text, NameText, MemberText, MemberEnd;
      ghost var before := Written();
      var more := n[current].next != NIL;
      MemberPieces(before, m, format, depth, more);
      ok := PrintName(b, n[current].name, m.key);
      if !ok { return; }
      ok := PrintChild(n, b, current, s, m.value);
      if !ok { return; }
      ok := Advance(|MemberEnd(format, more)| + 1, MemberEnd(format, more), true);
    }

    /** One item and the separator behind it. */
    method PrintItem(n: Nodes, b: Blocks, item: Ptr, ghost s: Shape, ghost t: Json, more: bool) returns (ok: bool)
      requires Valid() && buffer != null && depth <= NESTING_LIMIT && offset < length
      requires Plain(t) && Owns(n, b, s) && Reads(n, b, s, t) && item == s.p
      modifies this`buffer, this`length, this`offset, this`depth, arena, buffer
      ensures Valid() && Honest(old(Books()), Books(), ok)
      ensures var text := Text(t, format, old(depth)) + (if more then ItemSep(format) else []);
        && ok == (old(depth) + Nesting(t) <= NESTING_LIMIT && old(offset) + |text| + 2 <= Books().limit
                  && Books().refused == old(Books().refused))
        && (ok ==> buffer != null && (buffer == old(buffer) || fresh(buffer)) && depth == old(depth)
                   && offset == old(offset) + |text| < length && Written() == old(Written()) + text)
      decreases t, 3
    {
      hide Valid, Books, Written, Printed, Text, Plain, Nesting, Owns, Reads;
      ok := PrintChild(n, b, item, s, t);
      if !ok || !more { return; }
      var sep := if format then [COMMA, SPACE] else [COMMA];
      ok := Advance(|sep| + 1, sep, true);
    }
  }

  // ---- the entry points ----

  /**
   * `print`, which serves `cJSON_Print` and `cJSON_PrintUnformatted`: the block holds the text and its NUL, no more.
   */
  method Print(n: Nodes, b: Blocks, item: Ptr, ghost s: Shape, ghost t: Json, format: bool, arena: Arena)
    returns (printed: array?<byte>)
    requires Plain(t) && Owns(n, b, s) && Reads(n, b, s, t) && item == s.p
    modifies arena
    ensures arena.refused >= old(arena.refused) && (arena.Generous() ==> arena.refused == old(arena.refused))
    ensures arena.strays == old(arena.strays)
    ensures (printed != null) == (Nesting(t) <= NESTING_LIMIT && |Text(t, format, 0)| + 2 <= INT_MAX &&
                                  arena.refused == old(arena.refused))
    ensures printed == null ==> arena.buffers == old(arena.buffers)
    ensures printed != null ==> fresh(printed) && arena.buffers == old(arena.buffers) + {printed}
    ensures printed != null ==> printed[..] == Text(t, format, 0) + [0]
  {
    hide Text, Reads, Owns, Plain, Nesting;
    printed := null;
    var first := arena.Allocate(256);
    if first == null { return; }
    var p := new PrintBuffer(first, false, format, arena);
    assert first[..0] == [];
    var ok := p.PrintChild(n, b, item, s, t);
    if !ok {
      if p.buffer != null { arena.Free(p.buffer); }
      return;
    }
    assert p.buffer[..p.offset] == Text(t, format, 0);
    printed := Shrink(p);
  }

  /** The end of `print`: the text moves to a block of its own size, and the growing buffer goes. */
  method Shrink(p: PrintBuffer) returns (printed: array?<byte>)
    requires p.Valid() && p.buffer != null && !p.noalloc && p.offset < p.length && p.buffer[p.offset] == 0
    modifies p.arena
    ensures p.arena.refused >= old(p.arena.refused) && (printed != null) == (p.arena.refused == old(p.arena.refused))
    ensures p.arena.strays == old(p.arena.strays)
    ensures p.arena.Generous() ==> printed != null
    ensures printed == null ==> p.arena.buffers == old(p.Books()).others
    ensures printed != null ==> fresh(printed) && p.arena.buffers == old(p.Books()).others + {printed}
    ensures printed != null ==> printed[..] == p.buffer[..p.offset] + [0]
  {
    var arena := p.arena;
    if arena.realloc {
      printed := arena.Reallocate(p.buffer, p.offset + 1);
      if printed == null {
        arena.Free(p.buffer);
        return;
      }
    } else {
      printed := arena.Allocate(p.offset + 1);
      if printed == null {
        arena.Free(p.buffer);
        return;
      }
      var i := 0;
      while i < p.length && i < p.offset + 1
        invariant 0 <= i <= p.length && i <= p.offset + 1
        invariant printed[..i] == p.buffer[..i]
        modifies printed
      {
        printed[i] := p.buffer[i];
        i := i + 1;
      }
      assert printed[..p.offset] == printed[..i][..p.offset] == p.buffer[..p.offset];
      printed[p.offset] := 0;
      arena.Free(p.buffer);
    }
  }

  /** `print_value` over a buffer set up for it, its own or one handed in. */
  method PrintOver(n: Nodes, b: Blocks, item: Ptr, ghost s: Shape, ghost t: Json, first: array<byte>, noalloc: bool,
                   format: bool, arena: Arena)
    returns (ok: bool, buffer: array?<byte>)
    requires Plain(t) && Owns(n, b, s) && Reads(n, b, s, t) && item == s.p
    requires first.Length <= INT_MAX && (noalloc <==> first !in arena.buffers)
    modifies first, arena
    ensures arena.refused >= old(arena.refused)
    ensures arena.Generous() || noalloc ==> arena.refused == old(arena.refused)
    ensures ok == (Nesting(t) <= NESTING_LIMIT &&
      |Text(t, format, 0)| + 2 <= (if noalloc then first.Length else INT_MAX) &&
                   arena.refused == old(arena.refused))
    ensures noalloc ==> buffer == first && arena.buffers == old(arena.buffers)
    ensures buffer == null ==> arena.buffers == old(arena.buffers) - {first}
    ensures buffer != null && !noalloc ==>
      buffer in arena.buffers && arena.buffers - {buffer} == old(arena.buffers) - {first}
    ensures var due := if first.Length == 0 && !noalloc && !arena.realloc then 1 else 0;
      old(arena.strays) <= arena.strays <= old(arena.strays) + due && (ok ==> arena.strays == old(arena.strays) + due)
    ensures ok ==> buffer != null && (buffer == first || fresh(buffer))
    ensures ok ==> var k := |Text(t, format, 0)|;
      k + 2 <= buffer.Length && buffer[..k] == Text(t, format, 0) && buffer[k] == 0
  {
    hide Text, Reads, Owns, Plain, Nesting;
    var p := new PrintBuffer(first, noalloc, format, arena);
    assert p.Written() == [];
    ok := p.PrintValue(n, b, item, s, t);
    buffer := p.buffer;
    assert [] + Text(t, format, 0) == Text(t, format, 0);
  }

  /**
   * `cJSON_PrintBuffered`: the growing buffer itself is handed out. The text is right for any guess and any allocator;
   * a successful print has stayed within its blocks exactly when the guess was not 0 or realloc could be used.
   */
  method PrintBuffered(n: Nodes, b: Blocks, item: Ptr, ghost s: Shape, ghost t: Json, prebuffer: int, format: bool,
                       arena: Arena)
    returns (printed: array?<byte>)
    requires Plain(t) && Owns(n, b, s) && Reads(n, b, s, t) && item == s.p
    requires prebuffer <= INT_MAX
    modifies arena
    ensures arena.refused >= old(arena.refused) && (arena.Generous() ==> arena.refused == old(arena.refused))
    ensures prebuffer != 0 || arena.realloc ==> arena.strays == old(arena.strays)
    ensures printed != null ==> (arena.strays == old(arena.strays) <==> prebuffer > 0 || arena.realloc)
    ensures arena.strays <= old(arena.strays) + 1
    ensures (printed != null) ==
      (prebuffer >= 0 && Nesting(t) <= NESTING_LIMIT && |Text(t, format, 0)| + 2 <= INT_MAX &&
                                  arena.refused == old(arena.refused))
    ensures printed == null ==> arena.buffers == old(arena.buffers)
    ensures printed != null ==> fresh(printed) && arena.buffers == old(arena.buffers) + {printed}
    ensures printed != null ==>
      var k := |Text(t, format, 0)|; k < printed.Length && printed[..k] == Text(t, format, 0) && printed[k] == 0
  {
    hide Text, Reads, Owns, Plain, Nesting;
    printed := null;
    if prebuffer < 0 { return; }
    var first := arena.Allocate(prebuffer);
    if first == null { return; }
    var ok, buffer := PrintOver(n, b, item, s, t, first, false, format, arena);
    if !ok {
      if buffer != null { arena.Free(buffer); }
      return;
    }
    printed := buffer;
  }

  /**
   * So a guess of 0 with an allocator that cannot reallocate reads one byte that belongs to no block, even for null.
   */
  method GuessOfZero() returns (text: bytes, strays: nat)
    ensures text == NULL_TEXT && strays == 1
  {
    var arena := new Arena(_ => true, false);
    var n: Nodes := map[1 := BLANK.(kind := KNull)];
    ghost var s := Shape(1, NIL, NIL, []);
    assert OwnsList(n, map[], s.kids) && FpList(s.kids) == {};
    var printed := PrintBuffered(n, map[], 1, s, Null, 0, false, arena);
    text, strays := printed[..4], arena.strays;
  }

  /** `cJSON_PrintPreallocated`: it takes exactly the length of the text plus two. */
  method PrintPreallocated(n: Nodes, b: Blocks, item: Ptr, ghost s: Shape, ghost t: Json, buffer: array<byte>,
                           format: bool, arena: Arena)
    returns (ok: bool)
    requires Plain(t) && Owns(n, b, s) && Reads(n, b, s, t) && item == s.p
    requires buffer.Length <= INT_MAX && buffer !in arena.buffers
    modifies buffer, arena
    ensures arena.buffers == old(arena.buffers) && arena.strays == old(arena.strays)
    ensures ok == (Nesting(t) <= NESTING_LIMIT && |Text(t, format, 0)| + 2 <= buffer.Length)
    ensures ok ==> buffer[..|Text(t, format, 0)| + 1] == Text(t, format, 0) + [0]
  {
    hide Text, Reads, Owns, Plain, Nesting;
    ghost var k := |Text(t, format, 0)|;
    var printed;
    ok, printed := PrintOver(n, b, item, s, t, buffer, true, format, arena);
    if ok { assert buffer[..k + 1] == buffer[..k] + [0]; }
  }

  // ---- what the loops still have to print ----

  lemma ObjectParts(n: Nodes, b: Blocks, s: Shape, members: seq<Member>, format: bool, depth: nat)
    requires Owns(n, b, s) && Reads(n, b, s, Object(members))
    ensures s.p in n && n[s.p].child == Head(s.kids) && OwnsList(n, b, s.kids) && ReadsMembers(n, b, s.kids, members)
    ensures Text(Object(members), format, depth) ==
      ObjectOpen(format) + MembersText(members, format, depth + 1) + ObjectClose(format, depth)
    ensures |ObjectClose(format, depth)| == (if format then depth + 1 else 1)
    ensures Nesting(Object(members)) == 1 + NestingMembers(members)
  {
    hide OwnsList, ReadsMembers, MembersText, NestingMembers, Ring;
  }

  lemma MembersAt(n: Nodes, b: Blocks, kids: seq<Shape>, members: seq<Member>, i: nat, format: bool, depth: nat)
    requires OwnsList(n, b, kids) && ReadsMembers(n, b, kids, members) && i < |members| && PlainMembers(members[i..])
    ensures |kids| == |members| && Owns(n, b, kids[i]) && Reads(n, b, kids[i], members[i].value) &&
      Plain(members[i].value)
    ensures kids[i].p in n && n[kids[i].p].next == After(kids, i) && kids[i].p != NIL
    ensures StringAt(b, n[kids[i].p].name, members[i].key)
    ensures (After(kids, i) != NIL) == (i + 1 < |members|)
    ensures PlainMembers(members[i + 1..])
    ensures MembersText(members[i..], format, depth) ==
      MemberText(members[i], format, depth, i + 1 < |members|) + MembersText(members[i + 1..], format, depth)
    ensures NestingMembers(members[i..]) == Max(Nesting(members[i].value), NestingMembers(members[i + 1..]))
  {
    hide Owns, Reads, Plain, Nesting, MemberText, StringAt;
    assert members[i..][0] == members[i] && members[i..][1..] == members[i + 1..];
    assert Owns(n, b, kids[i]);
    if i + 1 < |kids| { assert kids[i + 1].p != NIL; }
  }

  ghost function NameText(key: bytes, format: bool, depth: nat): bytes {
    Indent(format, depth) + Quoted(key) + KeySep(format)
  }

  /** The pieces of one member. */
  lemma MemberPieces(before: bytes, m: Member, format: bool, depth: nat, more: bool)
    ensures before + NameText(m.key, format, depth) + Text(m.value, format, depth) + MemberEnd(format, more) ==
      before + MemberText(m, format, depth, more)
    ensures |MemberText(m, format, depth, more)| ==
      |NameText(m.key, format, depth)| + |Text(m.value, format, depth)| + |MemberEnd(format, more)|
    ensures |Text(m.value, format, depth)| > 0
  {
    hide Indent, Quoted, KeySep, Text, MemberEnd, NameText;
    var k, v, e := NameText(m.key, format, depth), Text(m.value, format, depth), MemberEnd(format, more);
    MemberTextIs(m, format, depth, more);
    Assoc4(before, k, v, e);
    TextStarts(m.value, format, depth);
  }

  lemma MemberTextIs(m: Member, format: bool, depth: nat, more: bool)
    ensures MemberText(m, format, depth, more) ==
      NameText(m.key, format, depth) + Text(m.value, format, depth) + MemberEnd(format, more)
  {
    hide Indent, Quoted, KeySep, Text, MemberEnd;
  }

  lemma Assoc3(a: bytes, b: bytes, c: bytes)
    ensures a + b + c == a + (b + c)
  {
  }

  lemma Assoc4(a: bytes, b: bytes, c: bytes, d: bytes)
    ensures a + b + c + d == a + (b + c + d)
  {
    Assoc3(a, b, c);
    Assoc3(a, b + c, d);
  }

  /** The i-th item as it stands in the text, with the separator behind it. */
  ghost function ItemText(items: seq<Json>, i: nat, format: bool, depth: nat): bytes
    requires i < |items|
  {
    Text(items[i], format, depth) + (if i + 1 < |items| then ItemSep(format) else [])
  }

  lemma ArrayParts(n: Nodes, b: Blocks, s: Shape, items: seq<Json>, format: bool, depth: nat)
    requires Owns(n, b, s) && Reads(n, b, s, Array(items))
    ensures s.p in n && n[s.p].child == Head(s.kids) && OwnsList(n, b, s.kids) && ReadsItems(n, b, s.kids, items)
    ensures Text(Array(items), format, depth) == [LBRACKET] + ItemsText(items, format, depth + 1) + [RBRACKET]
    ensures Nesting(Array(items)) == 1 + NestingItems(items)
  {
    hide OwnsList, ReadsItems, ItemsText, NestingItems, Ring;
  }

  lemma FirstOfList(n: Nodes, b: Blocks, kids: seq<Shape>)
    requires OwnsList(n, b, kids)
    ensures (Head(kids) == NIL) == (kids == [])
  {
  }

  lemma ItemsMatch(n: Nodes, b: Blocks, kids: seq<Shape>, items: seq<Json>)
    requires ReadsItems(n, b, kids, items)
    ensures |kids| == |items|
  {
  }

  lemma MembersMatch(n: Nodes, b: Blocks, kids: seq<Shape>, members: seq<Member>)
    requires ReadsMembers(n, b, kids, members)
    ensures |kids| == |members|
  {
  }

  lemma ItemsAt(n: Nodes, b: Blocks, kids: seq<Shape>, items: seq<Json>, i: nat, format: bool, depth: nat)
    requires OwnsList(n, b, kids) && ReadsItems(n, b, kids, items) && i < |items| && PlainItems(items[i..])
    ensures |kids| == |items| && Owns(n, b, kids[i]) && Reads(n, b, kids[i], items[i]) && Plain(items[i])
    ensures kids[i].p in n && n[kids[i].p].next == After(kids, i) && kids[i].p != NIL
    ensures (After(kids, i) != NIL) == (i + 1 < |items|)
    ensures PlainItems(items[i + 1..])
    ensures ItemsText(items[i..], format, depth) ==
      ItemText(items, i, format, depth) + ItemsText(items[i + 1..], format, depth)
    ensures NestingItems(items[i..]) == Max(Nesting(items[i]), NestingItems(items[i + 1..]))
  {
    hide Owns, Reads, Plain, Nesting, Text;
    assert items[i..][0] == items[i] && items[i..][1..] == items[i + 1..];
    assert Owns(n, b, kids[i]);
    if i + 1 < |kids| { assert kids[i + 1].p != NIL; }
  }

  lemma RestAfter(w: bytes, piece: bytes, rest: bytes, w': bytes, before: bytes, whole: bytes)
    requires w + (piece + rest) == before + whole && w' == w + piece
    ensures w' + rest == before + whole
  {
    assert w + piece + rest == w + (piece + rest);
  }

  lemma NoNulBefore(w: bytes, before: bytes, text: bytes)
    requires w == before + text && 0 !in text
    ensures forall k :: |before| <= k < |w| ==> w[k] != 0
  {
    forall k | |before| <= k < |w| ensures w[k] in text { assert w[k] == text[k - |before|]; }
  }

  lemma QuotedNulFree(s: bytes)
    ensures 0 !in Quoted(s)
  {
    EscapeNulFree(s);
  }

  lemma PrefixOf(w: bytes, before: bytes, text: bytes, z: byte)
    requires w == before + (text + [z])
    ensures |w| == |before| + |text| + 1
    ensures w[..|before| + |text|] == before + text && w[|before| + |text|] == z
  {
    assert w == before + text + [z];
  }

  lemma {:induction false} StringBytes(input: bytes, s: bytes)
    requires CStr(input) == s && |s| < |input|
    ensures input[|s|] == 0 && input[..|s|] == s && forall i :: 0 <= i < |s| ==> input[i] == s[i] != 0
  {
    assert s <= input;
    forall i | 0 <= i < |s| ensures s[i] != 0 { assert s[i] in s; }
  }

  lemma {:induction false} EscapeSplit(a: bytes, b: bytes)
    ensures Escape(a + b) == Escape(a) + Escape(b)
  {
    if a == [] {
      assert a + b == b;
    } else {
      assert (a + b)[1..] == a[1..] + b;
      EscapeSplit(a[1..], b);
    }
  }

  lemma QuotedNothing()
    ensures |Quoted([])| == 2
  {
  }

  lemma QuotedLength(s: bytes)
    ensures |Quoted(s)| == |Escape(s)| + 2
  {
  }

  /** An opening quote and `s` escaped, behind `before`. */
  ghost function Opened(before: bytes, s: bytes): bytes { before + ([QUOTE] + Escape(s)) }

  lemma NothingEscaped(before: bytes, s: bytes)
    ensures Opened(before, s[..0]) == before + [QUOTE] && Escape(s[..0]) == []
  {
    assert [QUOTE] + [] == [QUOTE];
  }

  lemma EscapeOne(before: bytes, s: bytes, i: nat)
    requires i < |s|
    ensures Opened(before, s[..i + 1]) == Opened(before, s[..i]) + EscapeByte(s[i])
    ensures |Escape(s[..i + 1])| == |Escape(s[..i])| + |EscapeByte(s[i])|
  {
    hide Escape, EscapeByte;
    EscapeFirst(s, i);
    assert Opened(before, s[..i]) + EscapeByte(s[i]) == before + ([QUOTE] + (Escape(s[..i]) + EscapeByte(s[i])));
  }

  lemma EscapePrefix(s: bytes, i: nat)
    requires i <= |s|
    ensures |Escape(s[..i])| <= |Escape(s)|
  {
    EscapeSplit(s[..i], s[i..]);
    assert s[..i] + s[i..] == s;
  }

  lemma EscapeNothing()
    ensures Escape([]) == []
  {
  }

  lemma EscapedSize(c: byte)
    ensures |EscapeByte(c)| ==
      if c == QUOTE || c == BACKSLASH || c == 8 || c == 12 || c == 10 || c == 13 || c == 9 then 2
      else if c < 32 then 6 else 1
  {
  }

  lemma EscapeFirst(s: bytes, i: nat)
    requires i < |s|
    ensures Escape(s[..i + 1]) == Escape(s[..i]) + EscapeByte(s[i])
    ensures Escape(s[..i]) == s[..i] && |EscapeByte(s[i])| == 1 ==> Escape(s[..i + 1]) == s[..i + 1]
  {
    assert s[..i + 1] == s[..i] + [s[i]];
    EscapeSplit(s[..i], [s[i]]);
    assert Escape([s[i]]) == EscapeByte(s[i]) + Escape([]);
  }
}
