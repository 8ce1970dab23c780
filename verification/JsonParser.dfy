/**
 * The recursive-descent parser of cJSON over a buffer and a heap whose allocator may refuse any
 * request. Every method is tied to the grammar function of the same name, a failing one leaves
 * the heap as it found it, and a succeeding one adds exactly the blocks of the tree it built.
 */
module JsonParser {
  import opened Bytes
  import opened JsonText
  import opened JsonHeap
  import opened JsonBuild
  import opened JsonStrings
  import G = JsonGrammar

  /** How a call relates to the grammar: it succeeds iff the text is right and nothing was refused. */
  ghost predicate Outcome<T(!new)>(r: G.Parsed<T>, ok: bool, refusal: bool, offset: nat) {
    && ok == (r.Ok? && !refusal)
    && (ok ==> offset == r.next)
    && (!ok && !refusal ==> offset == r.at)
  }

  // ---- what is left of a list once its first elements have been read ----

  function Continue<T>(values: seq<T>, r: G.Parsed<seq<T>>): G.Parsed<seq<T>> {
    match r
    case Err(p) => G.Err(p)
    case Ok(rest, n) => G.Ok(values + rest, n)
  }

  function AtClose<T>(c: bytes, o: nat, close: byte): G.Parsed<seq<T>> {
    if o < |c| && c[o] == close then G.Ok([], o + 1) else G.Err(o)
  }

  function AtComma(c: bytes, o: nat): bool { o < |c| && c[o] == COMMA }

  function RestOfItems(c: bytes, o: nat, depth: nat, more: bool): G.Parsed<seq<Json>>
    requires more ==> o < |c|
  {
    if more then G.ParseItems(c, o, depth) else AtClose(c, o, RBRACKET)
  }

  function RestOfMembers(c: bytes, o: nat, depth: nat, more: bool): G.Parsed<seq<Member>>
    requires more ==> o < |c|
  {
    if more then G.ParseMembers(c, o, depth) else AtClose(c, o, RBRACE)
  }

  lemma ContinueTwice<T>(a: seq<T>, v: T, r: G.Parsed<seq<T>>)
    ensures Continue(a, Continue([v], r)) == Continue(a + [v], r)
  {
    if r.Ok? { assert a + ([v] + r.value) == a + [v] + r.value; }
  }

  /** What stands behind a key. */
  function ColonValue(c: bytes, o: nat, depth: nat): (r: G.Parsed<Json>)
    ensures r.Ok? ==> o < r.next <= |c|
  {
    if o >= |c| || c[o] != COLON then G.Err(o) else G.ParseValue(c, G.SkipBlank(c, o + 1), depth)
  }

  lemma ItemStep(c: bytes, o: nat, depth: nat, values: seq<Json>)
    requires o < |c|
    ensures var r := G.ParseValue(c, G.SkipBlank(c, o + 1), depth);
      if r.Err? then Continue(values, G.ParseItems(c, o, depth)) == G.Err(r.at)
      else
        var m := G.SkipBlank(c, r.next);
        Continue(values, G.ParseItems(c, o, depth)) ==
        Continue(values + [r.value], RestOfItems(c, m, depth, AtComma(c, m)))
  {
    hide G.ParseValue, G.SkipBlank;
    var r := G.ParseValue(c, G.SkipBlank(c, o + 1), depth);
    if r.Ok? {
      var m := G.SkipBlank(c, r.next);
      assert G.ParseItems(c, o, depth) == Continue([r.value], RestOfItems(c, m, depth, AtComma(c, m))) by {
        assert [r.value] + [] == [r.value];
      }
      ContinueTwice(values, r.value, RestOfItems(c, m, depth, AtComma(c, m)));
    }
  }

  lemma MemberStep(c: bytes, o: nat, depth: nat, values: seq<Member>)
    requires o < |c|
    ensures var members := Continue(values, G.ParseMembers(c, o, depth));
      if o + 1 >= |c| then members == G.Err(o)
      else
        var r := G.ParseMember(c, o + 1, depth);
        if r.Err? then members == G.Err(r.at)
        else
          var m := G.SkipBlank(c, r.next);
          members == Continue(values + [r.value], RestOfMembers(c, m, depth, AtComma(c, m)))
  {
    hide G.ParseMember, G.SkipBlank;
    if o + 1 < |c| {
      var r := G.ParseMember(c, o + 1, depth);
      if r.Ok? {
        var m := G.SkipBlank(c, r.next);
        assert G.ParseMembers(c, o, depth) == Continue([r.value], RestOfMembers(c, m, depth, AtComma(c, m))) by {
          assert [r.value] + [] == [r.value];
        }
        ContinueTwice(values, r.value, RestOfMembers(c, m, depth, AtComma(c, m)));
      }
    }
  }

  lemma MemberParsed(c: bytes, off: nat, depth: nat)
    requires off < |c|
    ensures match G.ParseString(c, G.SkipBlank(c, off))
      case Err(p) => G.ParseMember(c, off, depth) == G.Err(p)
      case Ok(key, n) =>
        match ColonValue(c, G.SkipBlank(c, n), depth)
        case Err(p) => G.ParseMember(c, off, depth) == G.Err(p)
        case Ok(v, k) => G.ParseMember(c, off, depth) == G.Ok(Member(key, v), k)
  {
    hide G.ParseString, G.ParseValue, G.SkipBlank;
  }

  class Parser {
    const content: bytes
    var offset: nat
    var depth: nat
    const heap: Heap

    constructor (content: bytes, heap: Heap)
      ensures this.content == content && this.heap == heap && offset == 0 && depth == 0
    {
      this.content, this.heap := content, heap;
      offset, depth := 0, 0;
    }

    /** `item` is a live item that has no value yet. */
    ghost predicate Ready(item: Ptr)
      reads this, heap
    {
      heap.Valid() && Vacant(heap.nodes, heap.blocks, item) && offset <= |content|
    }

    predicate CanAccess(index: nat)
      reads this
    {
      offset + index < |content|
    }

    /** `buffer_skip_whitespace`. */
    method SkipWhitespace()
      modifies this`offset
      ensures offset == G.SkipBlank(content, old(offset))
    {
      if !CanAccess(0) { return; }
      while CanAccess(0) && content[offset] <= 32
        invariant old(offset) <= offset <= |content|
        invariant G.ScanBlank(content, old(offset)) == G.ScanBlank(content, offset)
        decreases |content| - offset
      {
        offset := offset + 1;
      }
      if offset == |content| { offset := offset - 1; }
    }

    /** `strncmp` of a whole keyword at the current offset. */
    method Sees(word: bytes) returns (r: bool)
      ensures r == At(content, offset, word)
    {
      if offset + |word| > |content| {
        return word == [];
      }
      r := content[offset..offset + |word|] == word;
      AtSlice(content, offset, word);
    }

    method SetLeaf(item: Ptr, node: Node, ghost t: Json) returns (ghost s: Shape)
      requires heap.Valid() && Vacant(heap.nodes, heap.blocks, item)
      requires node == heap.nodes[item].(kind := node.kind, i := node.i, d := node.d)
      requires match t
               case Null => node.kind == KNull
               case False => node.kind == KFalse
               case True => node.kind == KTrue
               case Number(d) => node.kind == KNumber && node.d == d && node.i == Saturate(d)
               case _ => false
      modifies heap`nodes
      ensures heap.Valid()
      ensures Filled(old(heap.nodes), old(heap.blocks), heap.nodes, heap.blocks, item, s, t)
    {
      s := Shape(item, node.vs, node.name, []);
      FilledLeaf(heap.nodes, heap.blocks, item, node, heap.blocks, t);
      heap.nodes := heap.nodes[item := node];
    }

    /** `parse_number`: copy the run of number bytes, let `strtod` read it, drop the copy. */
    method ParseNumber(item: Ptr) returns (ok: bool, ghost s: Shape)
      requires Ready(item)
      modifies this`offset, heap
      ensures heap.Valid() && heap.refused >= old(heap.refused)
      ensures Outcome(G.ParseNumber(content, old(offset)), ok, heap.refused != old(heap.refused), offset)
      ensures ok ==> Filled(old(heap.nodes), old(heap.blocks), heap.nodes, heap.blocks, item, s,
                            G.ParseNumber(content, old(offset)).value)
      ensures !ok ==> heap.nodes == old(heap.nodes) && heap.blocks == old(heap.blocks)
    {
      hide G.StrToD, Owns, Reads, Fp, Filled;
      s := Shape(item, NIL, NIL, []);
      var i := 0;
      while CanAccess(i) && G.IsNumberByte(content[offset + i])
        invariant offset + i <= |content|
        invariant G.NumberEnd(content, offset) == G.NumberEnd(content, offset + i)
        decreases |content| - offset - i
      {
        i := i + 1;
      }
      var copy := heap.NewBlock(i + 1);
      if copy == NIL { return false, s; }
      var number := G.StrToD(content[offset..offset + i]);
      heap.FreeBlock(copy);
      assert heap.blocks == old(heap.blocks);
      if number.None? { return false, s; }
      var (d, n) := number.value;
      s := SetLeaf(item, heap.nodes[item].(d := d, i := Saturate(d), kind := KNumber), Number(d));
      offset := offset + n;
      ok := true;
    }

    // ---- strings ----

    /** `parse_hex4`. */
    method ParseHex4(i: nat) returns (h: nat)
      requires i + 4 <= |content|
      ensures h == G.Hex4(content, i)
    {
      hide G.HexValue, G.Hex4;
      h := 0;
      for k := 0 to 4
        invariant HexPrefix(content, i, k).Some?
        invariant h == (if k < 4 then 16 else 1) * HexPrefix(content, i, k).value
      {
        var digit := G.HexValue(content[i + k]);
        if digit.None? {
          BadDigit(content, i, k);
          return 0;
        }
        h := h + digit.value;
        if k < 3 { h := h * 16; }
      }
      HexPrefixIsHex4(content, i);
    }

    /** `utf16_literal_to_utf8`: decode one literal, write its UTF-8 behind `at`. */
    method Utf16LiteralToUtf8(pointer: nat, end: nat, output: array<byte>, at: nat)
      returns (consumed: nat, written: nat)
      requires pointer < end < |content|
      requires G.Utf16Literal(content, pointer, end).Some? ==>
        at + |G.Utf8(G.Utf16Literal(content, pointer, end).value.0)| <= output.Length
      modifies output
      ensures match G.Utf16Literal(content, pointer, end)
        case None => consumed == 0 && output[..] == old(output[..])
        case Some((cp, n)) =>
          && consumed == n && written == |G.Utf8(cp)| && at + written <= output.Length
          && output[..at + written] == old(output[..at]) + G.Utf8(cp)
    {
      hide G.Hex4, G.FromSurrogates, G.Utf8;
      consumed, written := 0, 0;
      if end - pointer < 6 { return; }
      var first := ParseHex4(pointer + 2);
      if 0xDC00 <= first <= 0xDFFF { return; }
      var codepoint := first;
      var sequence := 6;
      if 0xD800 <= first <= 0xDBFF {
        if end - (pointer + 6) < 6 { return; }
        if content[pointer + 6] != BACKSLASH || content[pointer + 7] != 117 { return; }
        var second := ParseHex4(pointer + 8);
        if second < 0xDC00 || second > 0xDFFF { return; }
        codepoint := G.FromSurrogates(first, second);
        sequence := 12;
      }
      written := EncodeUtf8(codepoint, output, at);
      consumed := sequence;
    }

    /** Continuation bytes from the last to the second, then the marked first byte. */
    method EncodeUtf8(codepoint: nat, output: array<byte>, at: nat) returns (length: nat)
      requires codepoint <= 0x10FFFF && at + |G.Utf8(codepoint)| <= output.Length
      modifies output
      ensures length == |G.Utf8(codepoint)|
      ensures output[..at + length] == old(output[..at]) + G.Utf8(codepoint)
    {
      hide G.Utf8;
      Utf8Bytes(codepoint);
      ghost var u := G.Utf8(codepoint);
      var mark := 0;
      if codepoint < 0x80 { length := 1; }
      else if codepoint < 0x800 { length, mark := 2, 0xC0; }
      else if codepoint < 0x10000 { length, mark := 3, 0xE0; }
      else { length, mark := 4, 0xF0; }
      var rest := codepoint;
      var position := length - 1;
      while position > 0
        invariant 0 <= position < length
        invariant rest == Sixths(codepoint, length - 1 - position)
        invariant forall k :: at + position < k < at + length ==> output[k] == u[k - at]
        invariant output[..at] == old(output[..at])
      {
        output[at + position] := 0x80 + rest % 0x40;
        rest := rest / 0x40;
        position := position - 1;
      }
      output[at] := mark + rest;
      assert output[at..at + length] == u;
      assert output[..at + length] == output[..at] + output[at..at + length];
    }

    /** The second pass of `parse_string`: it writes inside `output`, whatever the escapes are. */
    method Decode(start: nat, end: nat, output: array<byte>) returns (ok: bool, pointer: nat, length: nat)
      requires start <= end < |content| && output.Length > Units(content, start, end)
      modifies output
      ensures match G.Unescape(content, start, end)
        case Ok(s, p) => ok && length == |s| < output.Length && output[..length] == s
        case Err(p) => !ok && pointer == p
    {
      hide G.Utf16Literal, G.Utf8, G.Unescape, G.Prepend, Units;
      pointer, length := start, 0;
      PrependTwice([], [], G.Unescape(content, start, end));
      while pointer < end
        invariant start <= pointer <= |content| && length + Units(content, pointer, end) <= Units(content, start, end)
        invariant length <= output.Length
        invariant G.Unescape(content, start, end) == G.Prepend(output[..length], G.Unescape(content, pointer, end))
        decreases |content| - pointer
      {
        ghost var done := output[..length];
        ghost var p0 := pointer;
        OneStep(content, pointer, end);
        PrependError(done, pointer);
        if content[pointer] != BACKSLASH {
          output[length] := content[pointer];
          pointer, length := pointer + 1, length + 1;
          assert output[..length] == done + [content[p0]];
        } else if content[pointer + 1] == 117 {
          if G.Utf16Literal(content, pointer, end).Some? { LiteralFits(content, pointer, end); }
          var consumed, written := Utf16LiteralToUtf8(pointer, end, output, length);
          if consumed == 0 { return false, pointer, length; }
          pointer, length := pointer + consumed, length + written;
        } else {
          var b := G.ShortEscape(content[pointer + 1]);
          if b.None? { return false, pointer, length; }
          output[length] := b.value;
          pointer, length := pointer + 2, length + 1;
          assert output[..length] == done + [b.value];
        }
        PrependTwice(done, output[|done|..length], G.Unescape(content, pointer, end));
        assert output[..length] == done + output[|done|..length];
      }
      NothingMore(content, pointer, end);
      PrependToEnd(output[..length], pointer);
      ok := true;
    }

    /** First pass of `parse_string`: the closing quote and the size of the block to allocate. */
    method MeasureString() returns (ok: bool, end: nat, size: nat)
      requires offset < |content|
      ensures ok == G.ClosingQuote(content, offset + 1).Some?
      ensures ok ==> end == G.ClosingQuote(content, offset + 1).value && size == Units(content, offset + 1, end) + 2
    {
      end, size := offset + 1, 0;
      var skipped := 0;
      while end < |content| && content[end] != QUOTE
        invariant offset + 1 <= end <= |content| && skipped <= end - offset - 1
        invariant G.ClosingQuote(content, offset + 1) == G.ClosingQuote(content, end)
        invariant forall e :: end <= e <= |content| ==>
          Units(content, offset + 1, e) == end - offset - 1 - skipped + Units(content, end, e)
        decreases |content| - end
      {
        ghost var p0 := end;
        if content[end] == BACKSLASH {
          if end + 1 >= |content| { return false, end, size; }
          skipped := skipped + 1;
          end := end + 1;
        }
        end := end + 1;
        forall e | end <= e <= |content|
          ensures Units(content, p0, e) == (if content[p0] == BACKSLASH then 1 else end - p0) + Units(content, end, e)
        {}
      }
      if end >= |content| || content[end] != QUOTE { return false, end, size; }
      assert Units(content, end, end) == 0;
      size := end - offset - skipped + 1;
      ok := true;
    }

    /** `parse_string`: on success the item is a string item over a block of its own. */
    method ParseString(item: Ptr) returns (ok: bool)
      requires Ready(item) && offset < |content|
      modifies this`offset, heap
      ensures heap.Valid() && heap.refused >= old(heap.refused)
      ensures Outcome(G.ParseString(content, old(offset)), ok, heap.refused != old(heap.refused), offset)
      ensures !ok ==> heap.nodes == old(heap.nodes) && heap.blocks == old(heap.blocks)
      ensures ok ==> item in heap.nodes && StringSet(old(heap.nodes), old(heap.blocks), heap.nodes, heap.blocks, item,
                                                     heap.nodes[item].vs, G.ParseString(content, old(offset)).value)
    {
      hide G.Unescape, G.ClosingQuote, Units, CStr;
      if content[offset] != QUOTE {
        offset := offset + 1;
        return false;
      }
      var measured, end, size := MeasureString();
      if !measured {
        offset := offset + 1;
        return false;
      }
      var p := heap.NewBlock(size);
      if p == NIL {
        offset := offset + 1;
        return false;
      }
      ok := FillBlock(item, p, size, end);
    }

    /** Decode into the block; on failure give it back, otherwise hand it to the item. */
    method FillBlock(item: Ptr, p: Ptr, size: nat, end: nat) returns (ok: bool)
      requires Ready(item) && offset < end < |content| && p in heap.blocks
      requires size == Units(content, offset + 1, end) + 2
      modifies this`offset, heap`nodes, heap`blocks
      ensures heap.Valid() && item in heap.nodes
      ensures ok == G.Unescape(content, old(offset) + 1, end).Ok?
      ensures ok ==> offset == end + 1
      ensures ok ==> heap.nodes == old(heap.nodes)[item := old(heap.nodes[item]).(kind := KString, vs := p)]
      ensures ok ==> p in heap.blocks && heap.blocks == old(heap.blocks)[p := heap.blocks[p]]
      ensures ok ==> CStr(heap.blocks[p]) == CStr(G.Unescape(content, old(offset) + 1, end).value)
      ensures ok ==> |CStr(heap.blocks[p])| < |heap.blocks[p]|
      ensures !ok ==> offset == G.Unescape(content, old(offset) + 1, end).at
      ensures !ok ==> heap.nodes == old(heap.nodes) && heap.blocks == old(heap.blocks) - {p}
    {
      hide G.Unescape, Units, CStr;
      var output := new byte[size](_ => 0);
      var decoded, pointer, length := Decode(offset + 1, end, output);
      if !decoded {
        heap.FreeBlock(p);
        offset := pointer;
        return false;
      }
      output[length] := 0;
      ghost var s := output[..length];
      assert output[..] == s + [0] + output[length + 1..];
      TerminatedPrefix(s, output[length + 1..]);
      heap.blocks := heap.blocks[p := output[..]];
      heap.nodes := heap.nodes[item := heap.nodes[item].(kind := KString, vs := p)];
      offset := end + 1;
      ok := true;
    }

    // ---- values ----

    /** `parse_value`. */
    method ParseValue(item: Ptr) returns (ok: bool, ghost s: Shape)
      requires Ready(item)
      modifies this`offset, this`depth, heap
      ensures heap.Valid() && heap.refused >= old(heap.refused)
      ensures Outcome(G.ParseValue(content, old(offset), old(depth)), ok, heap.refused != old(heap.refused), offset)
      ensures ok ==> depth == old(depth)
      ensures ok ==> Filled(old(heap.nodes), old(heap.blocks), heap.nodes, heap.blocks, item, s,
                            G.ParseValue(content, old(offset), old(depth)).value)
      ensures !ok ==> heap.nodes == old(heap.nodes) && heap.blocks == old(heap.blocks)
      decreases |content| - offset, 3
    {
      hide G.ParseNumber, G.ParseString, G.ParseArray, G.ParseObject, Filled, At, CStr;
      s := Shape(item, NIL, NIL, []);
      var word := Sees(NULL_TEXT);
      if word {
        s := SetLeaf(item, heap.nodes[item].(kind := KNull), Null);
        offset := offset + 4;
        return true, s;
      }
      word := Sees(FALSE_TEXT);
      if word {
        s := SetLeaf(item, heap.nodes[item].(kind := KFalse), False);
        offset := offset + 5;
        return true, s;
      }
      word := Sees(TRUE_TEXT);
      if word {
        s := SetLeaf(item, heap.nodes[item].(kind := KTrue, i := 1), True);
        offset := offset + 4;
        return true, s;
      }
      if CanAccess(0) && content[offset] == QUOTE {
        ghost var n0, b0 := heap.nodes, heap.blocks;
        ok := ParseString(item);
        if ok { s := StringFills(n0, b0, heap.nodes, heap.blocks, item, G.ParseString(content, old(offset)).value); }
      } else if CanAccess(0) && (content[offset] == MINUS || G.IsDigit(content[offset])) {
        ok, s := ParseNumber(item);
      } else if CanAccess(0) && content[offset] == LBRACKET {
        ok, s := ParseArray(item);
      } else if CanAccess(0) && content[offset] == LBRACE {
        ok, s := ParseObject(item);
      } else {
        ok := false;
      }
    }

    /** A new blank item behind the last one of a list under construction, or NULL. */
    method AppendItem(head: Ptr, last: Ptr, ghost n0: Nodes, ghost b0: Blocks, ghost kids: seq<Shape>)
      returns (first: Ptr, item: Ptr)
      requires heap.Valid() && Disjunct(n0, b0) && Building(n0, b0, heap.nodes, heap.blocks, kids)
      requires head == Head(kids) && last == Last(kids)
      modifies heap
      ensures heap.Valid() && heap.blocks == old(heap.blocks)
      ensures heap.refused == old(heap.refused) + (if item == NIL then 1 else 0)
      ensures item == NIL ==> heap.nodes == old(heap.nodes) && first == head
      ensures item != NIL ==>
        && item !in Live(old(heap.nodes), old(heap.blocks)) && (kids != [] ==> last in old(heap.nodes))
        && heap.nodes == Attached(old(heap.nodes), kids, item)
        && Building(n0, b0, heap.nodes, heap.blocks, kids + [Shape(item, NIL, NIL, [])])
        && Vacant(heap.nodes, heap.blocks, item) && heap.nodes[item].name == NIL
        && first == Head(kids + [Shape(item, NIL, NIL, [])])
    {
      hide Building, Live;
      EndsOwned(n0, b0, heap.nodes, heap.blocks, kids);
      NotLive(heap.nodes, heap.blocks);
      item := heap.NewItem();
      first := head;
      if item == NIL { return; }
      AttachBuilds(n0, b0, old(heap.nodes), heap.blocks, kids, item);
      BlankAttached(old(heap.nodes), heap.blocks, kids, item);
      if head == NIL {
        first := item;
      } else {
        heap.nodes := heap.nodes[last := heap.nodes[last].(next := item)];
        heap.nodes := heap.nodes[item := heap.nodes[item].(prev := last)];
      }
      assert heap.nodes == Attached(old(heap.nodes), kids, item);
    }

    /** `goto fail` with a list under construction: free all of it. */
    method Abandon(head: Ptr, ghost n0: Nodes, ghost b0: Blocks, ghost kids: seq<Shape>)
      requires heap.Valid() && Disjunct(n0, b0) && Building(n0, b0, heap.nodes, heap.blocks, kids) && head == Head(kids)
      modifies heap`nodes, heap`blocks
      ensures heap.Valid() && heap.nodes == n0 && heap.blocks == b0
    {
      hide OwnsList, OpenRing, Extends, FpList;
      Restored(n0, b0, heap.nodes, heap.blocks, FpList(kids));
      if head != NIL {
        heap.Delete(head, kids);
      } else {
        EmptyList(heap.nodes, heap.blocks, kids);
      }
    }

    /** `parse_array`. */
    method ParseArray(item: Ptr) returns (ok: bool, ghost s: Shape)
      requires Ready(item) && offset < |content| && content[offset] == LBRACKET
      modifies this`offset, this`depth, heap
      ensures heap.Valid() && heap.refused >= old(heap.refused)
      ensures Outcome(G.ParseArray(content, old(offset), old(depth)), ok, heap.refused != old(heap.refused), offset)
      ensures ok ==> depth == old(depth)
      ensures ok ==> Filled(old(heap.nodes), old(heap.blocks), heap.nodes, heap.blocks, item, s,
                            G.ParseArray(content, old(offset), old(depth)).value)
      ensures !ok ==> heap.nodes == old(heap.nodes) && heap.blocks == old(heap.blocks)
      decreases |content| - offset, 2
    {
      hide G.ParseItems, Filled, Building, G.SkipBlank;
      s := Shape(item, NIL, NIL, []);
      if depth >= NESTING_LIMIT { return false, s; }
      depth := depth + 1;
      offset := offset + 1;
      SkipWhitespace();
      if CanAccess(0) && content[offset] == RBRACKET {
        NothingBuilt(heap.nodes, heap.blocks);
        s := Close(item, NIL, NIL, KArray, heap.nodes, heap.blocks, [], Array([]));
        return true, s;
      }
      if !CanAccess(0) {
        offset := offset - 1;
        return false, s;
      }
      offset := offset - 1;
      var read, head, current;
      ghost var kids, values;
      read, head, current, kids, values := ParseItems();
      if !read { return false, s; }
      s := Close(item, head, current, KArray, old(heap.nodes), old(heap.blocks), kids, Array(values));
      ok := true;
    }

    /** The `success:` block shared by arrays and objects. */
    method Close(item: Ptr, head: Ptr, current: Ptr, kind: Kind, ghost n0: Nodes, ghost b0: Blocks,
                 ghost kids: seq<Shape>, ghost t: Json)
      returns (ghost s: Shape)
      requires heap.Valid() && Disjunct(n0, b0) && Building(n0, b0, heap.nodes, heap.blocks, kids)
      requires Vacant(n0, b0, item) && head == Head(kids) && current == Last(kids) && depth > 0
      requires KidsRead(heap.nodes, heap.blocks, kids, kind, t)
      modifies this`offset, this`depth, heap`nodes
      ensures heap.Valid() && offset == old(offset) + 1 && depth == old(depth) - 1
      ensures Filled(n0, b0, heap.nodes, heap.blocks, item, s, t)
    {
      hide Owns, Fp, FpList, OwnsList, OpenRing, Filled, Ring, Reads, ReadsItems, ReadsMembers;
      HeadOwned(heap.nodes, heap.blocks, kids);
      CloseFills(n0, b0, heap.nodes, heap.blocks, kids, item, t, kind);
      depth := depth - 1;
      s := Shape(item, NIL, n0[item].name, kids);
      if head != NIL {
        heap.nodes := heap.nodes[head := heap.nodes[head].(prev := current)];
      }
      heap.nodes := heap.nodes[item := heap.nodes[item].(kind := kind, child := head)];
      offset := offset + 1;
    }

    /** The `do ... while (',')` loop of `parse_array` and the check for the bracket behind it. */
    method ParseItems() returns (ok: bool, head: Ptr, current: Ptr, ghost kids: seq<Shape>, ghost values: seq<Json>)
      requires heap.Valid() && offset < |content|
      modifies this`offset, this`depth, heap
      ensures heap.Valid() && heap.refused >= old(heap.refused)
      ensures Outcome(G.ParseItems(content, old(offset), old(depth)), ok, heap.refused != old(heap.refused),
                      if ok then offset + 1 else offset)
      ensures ok ==> depth == old(depth) && values == G.ParseItems(content, old(offset), old(depth)).value
      ensures ok ==> Building(old(heap.nodes), old(heap.blocks), heap.nodes, heap.blocks, kids)
      ensures ok ==> KidsRead(heap.nodes, heap.blocks, kids, KArray, Array(values))
      ensures ok ==> head == Head(kids) && current == Last(kids)
      ensures !ok ==> heap.nodes == old(heap.nodes) && heap.blocks == old(heap.blocks)
      decreases |content| - offset, 1
    {
      hide G.ParseItems, G.ParseValue, G.SkipBlank, Building, ReadsItems, Filled, Attached;
      ghost var n0, b0 := heap.nodes, heap.blocks;
      head, current, kids, values := NIL, NIL, [], [];
      NothingBuilt(n0, b0);
      NothingContinued(G.ParseItems(content, offset, depth));
      var more := true;
      while more
        invariant heap.Valid() && heap.refused == old(heap.refused) && depth == old(depth)
        invariant old(offset) <= offset <= |content| && (more ==> offset < |content|)
        invariant Building(n0, b0, heap.nodes, heap.blocks, kids) && head == Head(kids) && current == Last(kids)
        invariant ReadsItems(heap.nodes, heap.blocks, kids, values)
        invariant G.ParseItems(content, old(offset), depth) ==
          Continue(values, RestOfItems(content, offset, depth, more))
        decreases |content| - offset, more
      {
        ghost var o0 := offset;
        ItemStep(content, offset, depth, values);
        var item;
        ghost var v, s;
        ghost var kids' := kids;
        ok, head, item, s, v := ParseItem(head, current, n0, b0, kids, values);
        if !ok { return; }
        kids, values, current := kids + [s], values + [v], item;
        more := CanAccess(0) && content[offset] == COMMA;
      }
      if !CanAccess(0) || content[offset] != RBRACKET {
        Abandon(head, n0, b0, kids);
        return false, head, current, kids, values;
      }
      ok := true;
    }

    /** One round: attach an item, read its value, skip to what follows it. */
    method ParseItem(head: Ptr, last: Ptr, ghost n0: Nodes, ghost b0: Blocks, ghost kids: seq<Shape>,
                     ghost values: seq<Json>)
      returns (ok: bool, first: Ptr, item: Ptr, ghost s: Shape, ghost v: Json)
      requires heap.Valid() && offset < |content|
      requires Disjunct(n0, b0) && Building(n0, b0, heap.nodes, heap.blocks, kids)
      requires head == Head(kids) && last == Last(kids) && ReadsItems(heap.nodes, heap.blocks, kids, values)
      modifies this`offset, this`depth, heap
      ensures heap.Valid() && heap.refused >= old(heap.refused)
      ensures var r := G.ParseValue(content, G.SkipBlank(content, old(offset) + 1), old(depth));
        && ok == (r.Ok? && heap.refused == old(heap.refused))
        && (ok ==> v == r.value && offset == G.SkipBlank(content, r.next) && depth == old(depth))
        && (!ok && heap.refused == old(heap.refused) ==> offset == r.at)
      ensures ok ==> Building(n0, b0, heap.nodes, heap.blocks, kids + [s])
      ensures ok ==> ReadsItems(heap.nodes, heap.blocks, kids + [s], values + [v])
      ensures ok ==> first == Head(kids + [s]) && item == Last(kids + [s]) && offset > old(offset)
      ensures !ok ==> heap.nodes == n0 && heap.blocks == b0
      decreases |content| - offset, 0
    {
      hide G.ParseValue, G.SkipBlank, Building, Filled, ReadsItems, Attached;
      s, v := Shape(NIL, NIL, NIL, []), Null;
      first, item := AppendItem(head, last, n0, b0, kids);
      if item == NIL {
        Abandon(first, n0, b0, kids);
        return false, first, item, s, v;
      }
      ghost var n1, b1 := heap.nodes, heap.blocks;
      ghost var blank := Shape(item, NIL, NIL, []);
      offset := offset + 1;
      SkipWhitespace();
      ghost var r := G.ParseValue(content, offset, depth);
      ok, s := ParseValue(item);
      if !ok {
        Abandon(first, n0, b0, kids + [blank]);
        return;
      }
      SkipWhitespace();
      v := r.value;
      ItemRead(n0, b0, old(heap.nodes), n1, b1, heap.nodes, heap.blocks, kids, values, item, s, v);
    }

    /** `parse_object`. */
    method ParseObject(item: Ptr) returns (ok: bool, ghost s: Shape)
      requires Ready(item) && offset < |content| && content[offset] == LBRACE
      modifies this`offset, this`depth, heap
      ensures heap.Valid() && heap.refused >= old(heap.refused)
      ensures Outcome(G.ParseObject(content, old(offset), old(depth)), ok, heap.refused != old(heap.refused), offset)
      ensures ok ==> depth == old(depth)
      ensures ok ==> Filled(old(heap.nodes), old(heap.blocks), heap.nodes, heap.blocks, item, s,
                            G.ParseObject(content, old(offset), old(depth)).value)
      ensures !ok ==> heap.nodes == old(heap.nodes) && heap.blocks == old(heap.blocks)
      decreases |content| - offset, 2
    {
      hide G.ParseMembers, Filled, Building, G.SkipBlank;
      s := Shape(item, NIL, NIL, []);
      if depth >= NESTING_LIMIT { return false, s; }
      depth := depth + 1;
      offset := offset + 1;
      SkipWhitespace();
      if CanAccess(0) && content[offset] == RBRACE {
        NothingBuilt(heap.nodes, heap.blocks);
        s := Close(item, NIL, NIL, KObject, heap.nodes, heap.blocks, [], Object([]));
        return true, s;
      }
      if !CanAccess(0) {
        offset := offset - 1;
        return false, s;
      }
      offset := offset - 1;
      var read, head, current;
      ghost var kids, values;
      read, head, current, kids, values := ParseMembers();
      if !read { return false, s; }
      s := Close(item, head, current, KObject, old(heap.nodes), old(heap.blocks), kids, Object(values));
      ok := true;
    }

    /** The `do ... while (',')` loop of `parse_object` and the check for the brace behind it. */
    method ParseMembers() returns (ok: bool, head: Ptr, current: Ptr, ghost kids: seq<Shape>, ghost values: seq<Member>)
      requires heap.Valid() && offset < |content|
      modifies this`offset, this`depth, heap
      ensures heap.Valid() && heap.refused >= old(heap.refused)
      ensures Outcome(G.ParseMembers(content, old(offset), old(depth)), ok, heap.refused != old(heap.refused),
                      if ok then offset + 1 else offset)
      ensures ok ==> depth == old(depth) && values == G.ParseMembers(content, old(offset), old(depth)).value
      ensures ok ==> Building(old(heap.nodes), old(heap.blocks), heap.nodes, heap.blocks, kids)
      ensures ok ==> KidsRead(heap.nodes, heap.blocks, kids, KObject, Object(values))
      ensures ok ==> head == Head(kids) && current == Last(kids)
      ensures !ok ==> heap.nodes == old(heap.nodes) && heap.blocks == old(heap.blocks)
      decreases |content| - offset, 1
    {
      hide G.ParseMembers, G.ParseMember, G.SkipBlank, Building, ReadsMembers, Filled, Attached;
      ghost var n0, b0 := heap.nodes, heap.blocks;
      head, current, kids, values := NIL, NIL, [], [];
      NothingBuilt(n0, b0);
      NothingContinued(G.ParseMembers(content, offset, depth));
      var more := true;
      while more
        invariant heap.Valid() && heap.refused == old(heap.refused) && depth == old(depth)
        invariant old(offset) <= offset <= |content| && (more ==> offset < |content|)
        invariant Building(n0, b0, heap.nodes, heap.blocks, kids) && head == Head(kids) && current == Last(kids)
        invariant ReadsMembers(heap.nodes, heap.blocks, kids, values)
        invariant G.ParseMembers(content, old(offset), depth) ==
                  Continue(values, RestOfMembers(content, offset, depth, more))
        decreases |content| - offset, more
      {
        MemberStep(content, offset, depth, values);
        var item;
        ghost var m, s;
        ok, head, item, s, m := ParseMember(head, current, n0, b0, kids, values);
        if !ok { return; }
        kids, values, current := kids + [s], values + [m], item;
        more := CanAccess(0) && content[offset] == COMMA;
      }
      if !CanAccess(0) || content[offset] != RBRACE {
        Abandon(head, n0, b0, kids);
        return false, head, current, kids, values;
      }
      ok := true;
    }

    /** One round: attach an item, read key, colon and value, skip to what follows. */
    method ParseMember(head: Ptr, last: Ptr, ghost n0: Nodes, ghost b0: Blocks, ghost kids: seq<Shape>,
                       ghost values: seq<Member>)
      returns (ok: bool, first: Ptr, item: Ptr, ghost s: Shape, ghost m: Member)
      requires heap.Valid() && offset < |content|
      requires Disjunct(n0, b0) && Building(n0, b0, heap.nodes, heap.blocks, kids)
      requires head == Head(kids) && last == Last(kids) && ReadsMembers(heap.nodes, heap.blocks, kids, values)
      modifies this`offset, this`depth, heap
      ensures heap.Valid() && heap.refused >= old(heap.refused)
      ensures var r := if old(offset) + 1 < |content| then G.ParseMember(content, old(offset) + 1, old(depth))
        else G.Err(old(offset));
        && ok == (r.Ok? && heap.refused == old(heap.refused))
        && (ok ==> m == r.value && offset == G.SkipBlank(content, r.next) && depth == old(depth))
        && (!ok && heap.refused == old(heap.refused) ==> offset == r.at)
      ensures ok ==> Building(n0, b0, heap.nodes, heap.blocks, kids + [s])
      ensures ok ==> ReadsMembers(heap.nodes, heap.blocks, kids + [s], values + [m])
      ensures ok ==> first == Head(kids + [s]) && item == Last(kids + [s]) && offset > old(offset)
      ensures !ok ==> heap.nodes == n0 && heap.blocks == b0
      decreases |content| - offset, 0
    {
      hide G.ParseMember, G.ParseString, ColonValue, G.SkipBlank, Building, Filled, ReadsMembers, Attached, KidsKept,
           Live;
      s, m := Shape(NIL, NIL, NIL, []), Member([], Null);
      first, item := AppendItem(head, last, n0, b0, kids);
      if item == NIL {
        Abandon(first, n0, b0, kids);
        return false, first, item, s, m;
      }
      ghost var n1, b1 := heap.nodes, heap.blocks;
      ghost var blank := Shape(item, NIL, NIL, []);
      if !CanAccess(1) {
        Abandon(first, n0, b0, kids + [blank]);
        return false, first, item, s, m;
      }
      offset := offset + 1;
      MemberParsed(content, offset, depth);
      ghost var key;
      ok, key := ParseName(item, first, n0, b0, kids);
      if !ok { return; }
      ghost var p := heap.nodes[item].name;
      ghost var n3, b3 := heap.nodes, heap.blocks;
      ok, s := ParseMemberValue(item, first, n0, b0, kids, p);
      if !ok { return; }
      m := G.ParseMember(content, old(offset) + 1, old(depth)).value;
      MemberRead(n0, b0, old(heap.nodes), old(heap.blocks), n1, n3, b3, heap.nodes, heap.blocks, kids, values, item,
        p, s, m);
    }

    /** The key of a member: a string that becomes the name of the blank item. */
    method ParseName(item: Ptr, first: Ptr, ghost n0: Nodes, ghost b0: Blocks, ghost kids: seq<Shape>)
      returns (ok: bool, ghost key: bytes)
      requires Ready(item) && Disjunct(n0, b0) && heap.nodes[item].name == NIL && offset < |content|
      requires Building(n0, b0, heap.nodes, heap.blocks, kids + [Shape(item, NIL, NIL, [])])
      requires first == Head(kids + [Shape(item, NIL, NIL, [])])
      modifies this`offset, heap
      ensures heap.Valid() && heap.refused >= old(heap.refused)
      ensures var r := G.ParseString(content, G.SkipBlank(content, old(offset)));
        && ok == (r.Ok? && heap.refused == old(heap.refused))
        && (ok ==> key == r.value && offset == G.SkipBlank(content, r.next))
        && (!ok && heap.refused == old(heap.refused) ==> offset == r.at)
      ensures ok ==> Ready(item) && heap.nodes[item].name != NIL && StringAt(heap.blocks, heap.nodes[item].name, key)
      ensures ok ==> Building(n0, b0, heap.nodes, heap.blocks, kids + [Shape(item, NIL, heap.nodes[item].name, [])])
      ensures ok ==> KidsKept(old(heap.nodes), old(heap.blocks), heap.nodes, heap.blocks, kids)
      ensures !ok ==> heap.nodes == n0 && heap.blocks == b0
    {
      hide G.ParseString, G.SkipBlank, Building, KidsKept, CStr;
      ghost var n1, b1 := heap.nodes, heap.blocks;
      SkipWhitespace();
      ghost var r := G.ParseString(content, offset);
      key := [];
      ok := ParseString(item);
      if !ok {
        Abandon(first, n0, b0, kids + [Shape(item, NIL, NIL, [])]);
        return;
      }
      SkipWhitespace();
      key := r.value;
      KeyBuilds(n0, b0, n1, b1, heap.nodes, heap.blocks, kids, item, key);
      heap.nodes := heap.nodes[item := heap.nodes[item].(name := heap.nodes[item].vs, vs := NIL)];
    }

    /** The colon and the value behind a key. */
    method ParseMemberValue(item: Ptr, first: Ptr, ghost n0: Nodes, ghost b0: Blocks, ghost kids: seq<Shape>,
                            ghost p: Ptr)
      returns (ok: bool, ghost s: Shape)
      requires Ready(item) && Disjunct(n0, b0) && heap.nodes[item].name == p
      requires Building(n0, b0, heap.nodes, heap.blocks, kids + [Shape(item, NIL, p, [])])
      requires first == Head(kids + [Shape(item, NIL, p, [])])
      modifies this`offset, this`depth, heap
      ensures heap.Valid() && heap.refused >= old(heap.refused)
      ensures var r := ColonValue(content, old(offset), old(depth));
        && ok == (r.Ok? && heap.refused == old(heap.refused))
        && (ok ==> Filled(old(heap.nodes), old(heap.blocks), heap.nodes, heap.blocks, item, s, r.value))
        && (ok ==> offset == G.SkipBlank(content, r.next) && old(offset) < offset <= |content| && depth == old(depth))
        && (!ok && heap.refused == old(heap.refused) ==> offset == r.at)
      ensures !ok ==> heap.nodes == n0 && heap.blocks == b0
      decreases |content| - offset, 0
    {
      hide G.ParseValue, G.SkipBlank, Building, Filled;
      s := Shape(item, NIL, p, []);
      if !CanAccess(0) || content[offset] != COLON {
        Abandon(first, n0, b0, kids + [Shape(item, NIL, p, [])]);
        return false, s;
      }
      offset := offset + 1;
      SkipWhitespace();
      ok, s := ParseValue(item);
      if !ok {
        Abandon(first, n0, b0, kids + [Shape(item, NIL, p, [])]);
        return;
      }
      SkipWhitespace();
    }
  }

  // ---- whole documents ----

  /** Where `return_parse_end` points after a failure: never past the last byte. */
  function ErrorPosition(c: bytes, at: nat): (p: nat)
    ensures |c| > 0 ==> p < |c|
  {
    if at < |c| then at else if |c| > 0 then |c| - 1 else 0
  }

  /** `cJSON_ParseWithLengthOpts`. */
  method ParseWithLengthOpts(content: bytes, requireNul: bool, heap: Heap) returns (root: Ptr, end: nat, ghost s: Shape)
    requires heap.Valid()
    modifies heap
    ensures heap.Valid() && heap.refused >= old(heap.refused)
    ensures (root != NIL) == (G.ParseBuffer(content, requireNul).Ok? && heap.refused == old(heap.refused))
    ensures root != NIL ==>
      && s.p == root && s.name == NIL && end == G.ParseBuffer(content, requireNul).next
      && Owns(heap.nodes, heap.blocks, s) && Reads(heap.nodes, heap.blocks, s, G.ParseBuffer(content, requireNul).value)
      && heap.nodes[root].next == NIL && heap.nodes[root].prev == NIL
      && Extends(old(heap.nodes), old(heap.blocks), heap.nodes, heap.blocks, Fp(s))
    ensures root == NIL ==> heap.nodes == old(heap.nodes) && heap.blocks == old(heap.blocks)
    ensures root == NIL && heap.refused == old(heap.refused) ==>
      end == ErrorPosition(content, G.ParseBuffer(content, requireNul).at)
  {
    hide G.ParseValue, G.SkipBlank, G.AfterBom, Owns, Fp, Reads, Filled, Extends;
    end := 0;
    root := NIL;
    s := Shape(NIL, NIL, NIL, []);
    if |content| == 0 { return; }
    var p := heap.NewItem();
    if p == NIL { return; }
    ghost var n1 := heap.nodes;
    var buffer := OpenBuffer(content, heap);
    ghost var r := G.ParseValue(content, buffer.offset, 0);
    var ok;
    ok, s := buffer.ParseValue(p);
    if !ok {
      ForgetRoot(heap, p);
      end := ErrorPosition(content, buffer.offset);
      return;
    }
    RootExtends(old(heap.nodes), old(heap.blocks), n1, heap.nodes, heap.blocks, p, s, r.value);
    if requireNul {
      buffer.SkipWhitespace();
      if buffer.offset >= |content| || content[buffer.offset] != 0 {
        Restored(old(heap.nodes), old(heap.blocks), heap.nodes, heap.blocks, Fp(s));
        DeleteRoot(heap, p, s);
        end := ErrorPosition(content, buffer.offset);
        return;
      }
    }
    root, end := p, buffer.offset;
  }

  /** The parse buffer, moved behind a byte order mark and the whitespace that follows. */
  method OpenBuffer(content: bytes, heap: Heap) returns (buffer: Parser)
    requires content != []
    ensures fresh(buffer) && buffer.content == content && buffer.heap == heap && buffer.depth == 0
    ensures buffer.offset == G.SkipBlank(content, G.AfterBom(content)) < |content|
  {
    hide G.SkipBlank, At;
    buffer := new Parser(content, heap);
    var bom := false;
    if 4 < |content| { bom := buffer.Sees(G.BOM); }
    if bom { buffer.offset := 3; }
    buffer.SkipWhitespace();
  }

  /** `cJSON_Delete` of an item that stands alone. */
  method DeleteRoot(heap: Heap, root: Ptr, ghost s: Shape)
    requires heap.Valid() && Owns(heap.nodes, heap.blocks, s) && s.p == root && heap.nodes[root].next == NIL
    modifies heap`nodes, heap`blocks
    ensures heap.Valid()
    ensures heap.nodes == old(heap.nodes) - Fp(s) && heap.blocks == old(heap.blocks) - Fp(s)
  {
    AloneOwned(heap.nodes, heap.blocks, s);
    heap.Delete(root, [s]);
  }

  method ForgetRoot(heap: Heap, root: Ptr)
    requires heap.Valid() && root in heap.nodes && heap.nodes[root] == BLANK
    modifies heap`nodes, heap`blocks
    ensures heap.Valid() && heap.nodes == old(heap.nodes) - {root} && heap.blocks == old(heap.blocks)
  {
    ghost var s := Shape(root, NIL, NIL, []);
    FpOfBlank(root);
    assert FpList([]) == {};
    assert Owns(heap.nodes, heap.blocks, s);
    DeleteRoot(heap, root, s);
  }

  lemma RootExtends(n0: Nodes, b0: Blocks, n1: Nodes, n2: Nodes, b2: Blocks, p: Ptr, s: Shape, t: Json)
    requires Disjunct(n0, b0) && p !in n0 && p !in b0 && n1 == n0[p := BLANK] && Disjunct(n2, b2)
    requires Filled(n1, b0, n2, b2, p, s, t)
    ensures Extends(n0, b0, n2, b2, Fp(s)) && s.name == NIL
    ensures s.p == p && p in n2 && n2[p].next == NIL && n2[p].prev == NIL && Owns(n2, b2, s) && Reads(n2, b2, s, t)
  {
    hide Owns, Reads, Fp;
    OwnedAddress(n2, b2, s);
    assert n1.Keys == n0.Keys + {p};
    assert p in Fp(s);
  }

  /** Parsing and then deleting leaves the heap as it was, whatever the allocator refused. */
  method ParseAndDelete(content: bytes, requireNul: bool, heap: Heap)
    requires heap.Valid()
    modifies heap
    ensures heap.Valid() && heap.nodes == old(heap.nodes) && heap.blocks == old(heap.blocks)
  {
    hide Fp, Owns, Reads;
    var root, end;
    ghost var s;
    root, end, s := ParseWithLengthOpts(content, requireNul, heap);
    if root != NIL {
      Restored(old(heap.nodes), old(heap.blocks), heap.nodes, heap.blocks, Fp(s));
      DeleteRoot(heap, root, s);
    }
  }

  // ---- the ghost side of the loops ----

  lemma EndsOwned(n0: Nodes, b0: Blocks, n: Nodes, b: Blocks, kids: seq<Shape>)
    requires Building(n0, b0, n, b, kids)
    ensures kids != [] ==> Head(kids) in n && Head(kids) != NIL && Last(kids) in n && Last(kids) != NIL
    ensures kids == [] ==> Head(kids) == NIL
  {
    hide OwnsList, OpenRing, Extends;
    if kids != [] { LastOwned(n, b, kids); }
    HeadOwned(n, b, kids);
  }

  lemma NotLive(n: Nodes, b: Blocks)
    ensures forall q :: q !in n && q !in b ==> q !in Live(n, b)
  {
  }

  lemma BlankAttached(n: Nodes, b: Blocks, kids: seq<Shape>, item: Ptr)
    requires item !in Live(n, b) && (kids != [] ==> Last(kids) in n)
    ensures var n' := Attached(n, kids, item); Vacant(n', b, item) && n'[item].name == NIL
  {
  }

  /** The key moved from the value string to the name of the blank last item. */
  lemma KeyBuilds(n0: Nodes, b0: Blocks, n1: Nodes, b1: Blocks, n2: Nodes, b2: Blocks, kids: seq<Shape>, item: Ptr,
                  key: bytes)
    requires Disjunct(n1, b1) && Disjunct(n2, b2) && item in n2
    requires Building(n0, b0, n1, b1, kids + [Shape(item, NIL, NIL, [])])
    requires Vacant(n1, b1, item) && n1[item].name == NIL && StringSet(n1, b1, n2, b2, item, n2[item].vs, key)
    ensures var p := n2[item].vs;
      var n3 := n2[item := n2[item].(name := p, vs := NIL)];
      && Building(n0, b0, n3, b2, kids + [Shape(item, NIL, p, [])]) && KidsKept(n1, b1, n3, b2, kids)
      && Vacant(n3, b2, item) && Disjunct(n3, b2) && StringAt(b2, p, key)
  {
    hide Building, Grown, KidsKept, StringAt, StringSet, Vacant, Disjunct;
    var p := n2[item].vs;
    var n3 := n2[item := n2[item].(name := p, vs := NIL)];
    KeyGrows(n1, b1, n2, b2, item, key);
    KeyedIsVacant(n1, b1, n2, b2, item, key);
    GrowLast(n0, b0, n1, b1, n3, b2, kids, Shape(item, NIL, NIL, []), Shape(item, NIL, p, []));
  }

  lemma KeyedIsVacant(n1: Nodes, b1: Blocks, n2: Nodes, b2: Blocks, item: Ptr, key: bytes)
    requires Disjunct(n2, b2) && item in n2 && Vacant(n1, b1, item)
    requires StringSet(n1, b1, n2, b2, item, n2[item].vs, key)
    ensures var p := n2[item].vs;
      var n3 := n2[item := n2[item].(name := p, vs := NIL)];
      p != NIL && Vacant(n3, b2, item) && Disjunct(n3, b2) && StringAt(b2, p, key)
  {
    hide CStr;
    var n3 := n2[item := n2[item].(name := n2[item].vs, vs := NIL)];
    assert n3.Keys == n2.Keys;
  }

  lemma KeyGrows(n1: Nodes, b1: Blocks, n2: Nodes, b2: Blocks, item: Ptr, key: bytes)
    requires Disjunct(n1, b1) && Disjunct(n2, b2) && item in n2
    requires Vacant(n1, b1, item) && n1[item].name == NIL && StringSet(n1, b1, n2, b2, item, n2[item].vs, key)
    ensures var p := n2[item].vs;
      Grown(n1, b1, n2[item := n2[item].(name := p, vs := NIL)], b2, Shape(item, NIL, NIL, []), Shape(item, NIL, p, []))
  {
    hide CStr;
    assert FpList([]) == {};
    var p := n2[item].vs;
    var n3 := n2[item := n2[item].(name := p, vs := NIL)];
    assert n3.Keys == n1.Keys && b2.Keys == b1.Keys + {p};
    assert Fp(Shape(item, NIL, p, [])) == {item, p};
    assert Fp(Shape(item, NIL, NIL, [])) == {item};
    assert Owns(n3, b2, Shape(item, NIL, p, []));
  }

  /** The member behind `kids` has its value; `b` and `n` are the heap before its item was made. */
  lemma MemberRead(n0: Nodes, b0: Blocks, n: Nodes, b: Blocks, n1: Nodes, n3: Nodes, b3: Blocks, n4: Nodes, b4: Blocks,
                   kids: seq<Shape>, values: seq<Member>, item: Ptr, p: Ptr, s: Shape, m: Member)
    requires Disjunct(n, b) && Disjunct(n1, b) && Disjunct(n3, b3) && Disjunct(n4, b4)
    requires Building(n0, b0, n, b, kids) && ReadsMembers(n, b, kids, values)
    requires item != NIL && item !in Live(n, b) && (kids != [] ==> Last(kids) in n) && n1 == Attached(n, kids, item)
    requires Building(n0, b0, n1, b, kids + [Shape(item, NIL, NIL, [])]) && KidsKept(n1, b, n3, b3, kids)
    requires Building(n0, b0, n3, b3, kids + [Shape(item, NIL, p, [])]) && Vacant(n3, b3, item) && n3[item].name == p
    requires p != NIL && StringAt(b3, p, m.key) && Filled(n3, b3, n4, b4, item, s, m.value)
    ensures Building(n0, b0, n4, b4, kids + [s]) && ReadsMembers(n4, b4, kids + [s], values + [m])
    ensures Last(kids + [s]) == item && Head(kids + [s]) == Head(kids + [Shape(item, NIL, NIL, [])])
  {
    hide Owns, Fp, FpList, OpenRing, Extends, Attached, Grown, KidsKept, Reads, CStr;
    var blank, keyed := Shape(item, NIL, NIL, []), Shape(item, NIL, p, []);
    FilledGrows(n3, b3, n4, b4, item, p, s, m.value);
    GrowLast(n0, b0, n3, b3, n4, b4, kids, keyed, s);
    AttachKeepsKids(n, b, kids, item);
    MembersStillRead(n, b, n1, b, kids, values);
    forall i | 0 <= i < |kids| ensures Owns(n1, b, kids[i]) { PrefixOwned(n1, b, kids, blank, i); }
    MembersStillRead(n1, b, n3, b3, kids, values);
    forall i | 0 <= i < |kids| ensures Owns(n3, b3, kids[i]) { PrefixOwned(n3, b3, kids, keyed, i); }
    MembersStillRead(n3, b3, n4, b4, kids, values);
    KeyStays(n3, b3, n4, b4, item, p, s, m.value);
  }

  lemma KeyStays(n3: Nodes, b3: Blocks, n4: Nodes, b4: Blocks, item: Ptr, p: Ptr, s: Shape, t: Json)
    requires Vacant(n3, b3, item) && n3[item].name == p && p != NIL && Filled(n3, b3, n4, b4, item, s, t)
    ensures s.p in n4 && forall v :: StringAt(b3, p, v) ==> StringAt(b4, n4[s.p].name, v)
    ensures Reads(n4, b4, s, t)
  {
    hide Reads, OwnsList;
  }

  lemma NothingBuilt(n0: Nodes, b0: Blocks)
    ensures Building(n0, b0, n0, b0, []) && KidsRead(n0, b0, [], KArray, Array([])) &&
      KidsRead(n0, b0, [], KObject, Object([]))
  {
    assert FpList([]) == {};
  }

  lemma NothingContinued<T>(r: G.Parsed<seq<T>>)
    ensures Continue([], r) == r
  {
    if r.Ok? { assert [] + r.value == r.value; }
  }

  lemma HeadOwned(n: Nodes, b: Blocks, kids: seq<Shape>)
    requires OwnsList(n, b, kids)
    ensures kids != [] ==> Head(kids) != NIL && Head(kids) in n
    ensures kids == [] ==> Head(kids) == NIL
  {
  }

  /** A filled blank item has grown. */
  lemma FilledGrows(n1: Nodes, b1: Blocks, n2: Nodes, b2: Blocks, item: Ptr, name: Ptr, s: Shape, t: Json)
    requires Disjunct(n1, b1) && Disjunct(n2, b2) && Filled(n1, b1, n2, b2, item, s, t)
    requires Vacant(n1, b1, item) && n1[item].name == name
    ensures Grown(n1, b1, n2, b2, Shape(item, NIL, name, []), s)
  {
    hide OwnsList, Reads;
    assert FpList([]) == {};
    assert item in Live(n1, b1);
    assert Fp(Shape(item, NIL, name, [])) <= Fp(s);
  }

  lemma ItemRead(n0: Nodes, b0: Blocks, n: Nodes, n1: Nodes, b1: Blocks, n2: Nodes, b2: Blocks,
                 kids: seq<Shape>, values: seq<Json>, item: Ptr, s: Shape, v: Json)
    requires Disjunct(n, b1) && Disjunct(n1, b1) && Disjunct(n2, b2)
    requires Building(n0, b0, n, b1, kids) && ReadsItems(n, b1, kids, values)
    requires item != NIL && item !in Live(n, b1) && (kids != [] ==> Last(kids) in n) && n1 == Attached(n, kids, item)
    requires Building(n0, b0, n1, b1, kids + [Shape(item, NIL, NIL, [])])
    requires Vacant(n1, b1, item) && n1[item].name == NIL && Filled(n1, b1, n2, b2, item, s, v)
    ensures Building(n0, b0, n2, b2, kids + [s]) && ReadsItems(n2, b2, kids + [s], values + [v])
    ensures Last(kids + [s]) == item && Head(kids + [s]) == Head(kids + [Shape(item, NIL, NIL, [])])
  {
    hide Owns, Fp, FpList, OpenRing, Extends, Attached, Grown, KidsKept, Reads;
    var blank := Shape(item, NIL, NIL, []);
    FilledGrows(n1, b1, n2, b2, item, NIL, s, v);
    GrowLast(n0, b0, n1, b1, n2, b2, kids, blank, s);
    AttachKeepsKids(n, b1, kids, item);
    ItemsStillRead(n, b1, n1, b1, kids, values);
    forall i | 0 <= i < |kids| ensures Owns(n1, b1, kids[i]) { PrefixOwned(n1, b1, kids, blank, i); }
    ItemsStillRead(n1, b1, n2, b2, kids, values);
  }

  lemma StringFills(n0: Nodes, b0: Blocks, n1: Nodes, b1: Blocks, item: Ptr, v: bytes) returns (s: Shape)
    requires Disjunct(n0, b0) && Vacant(n0, b0, item) && item in n1
    requires StringSet(n0, b0, n1, b1, item, n1[item].vs, v)
    ensures Filled(n0, b0, n1, b1, item, s, String(v))
  {
    hide Filled;
    s := Shape(item, n1[item].vs, n1[item].name, []);
    FilledLeaf(n0, b0, item, n1[item], b1, String(v));
  }

  /** `item` got a fresh block as its value string and became a string item; nothing else changed. */
  ghost predicate StringSet(n0: Nodes, b0: Blocks, n1: Nodes, b1: Blocks, item: Ptr, p: Ptr, value: bytes) {
    && item in n0 && p != NIL && p !in n0 && p !in b0 && p in b1
    && n1 == n0[item := n0[item].(kind := KString, vs := p)]
    && b1 == b0[p := b1[p]] && CStr(b1[p]) == value && |value| < |b1[p]|
  }

  /** A block read as a C string stops at the first NUL, be it decoded or the terminator. */
  lemma {:induction false} TerminatedPrefix(s: bytes, rest: bytes)
    ensures CStr(s + [0] + rest) == CStr(s)
  {
    if s == [] {
      assert (s + [0] + rest)[0] == 0;
    } else {
      assert (s + [0] + rest)[1..] == s[1..] + [0] + rest;
      TerminatedPrefix(s[1..], rest);
    }
  }

  // ---- about the string decoder ----

  function HexPrefix(c: bytes, i: nat, k: nat): Option<nat>
    requires i + k <= |c|
  {
    if k == 0 then Some(0)
    else
      match (HexPrefix(c, i, k - 1), G.HexValue(c[i + k - 1]))
      case (Some(a), Some(b)) => Some(16 * a + b)
      case _ => None
  }

  lemma HexPrefixIsHex4(c: bytes, i: nat)
    requires i + 4 <= |c| && HexPrefix(c, i, 4).Some?
    ensures G.Hex4(c, i) == HexPrefix(c, i, 4).value
  {
    hide G.HexValue;
    assert HexPrefix(c, i, 0) == Some(0) && c[i + 1 - 1] == c[i];
    var p1, p2, p3 := HexPrefix(c, i, 1), HexPrefix(c, i, 2), HexPrefix(c, i, 3);
    assert p1.value == G.HexValue(c[i]).value;
    assert p2.value == 16 * p1.value + G.HexValue(c[i + 1]).value;
    assert p3.value == 16 * p2.value + G.HexValue(c[i + 2]).value;
  }

  lemma BadDigit(c: bytes, i: nat, k: nat)
    requires i + 4 <= |c| && k < 4 && G.HexValue(c[i + k]).None?
    ensures G.Hex4(c, i) == 0
  {
    hide G.HexValue;
  }

  /** `x >> 6 * n`. */
  function Sixths(x: nat, n: nat): nat {
    if n == 0 then x else Sixths(x, n - 1) / 0x40
  }

  lemma Utf8Bytes(cp: nat)
    requires cp <= 0x10FFFF
    ensures var u := G.Utf8(cp);
      var mark := if |u| == 1 then 0 else if |u| == 2 then 0xC0 else if |u| == 3 then 0xE0 else 0xF0;
      && |u| == (if cp < 0x80 then 1 else if cp < 0x800 then 2 else if cp < 0x10000 then 3 else 4)
      && u[0] == mark + Sixths(cp, |u| - 1)
      && forall k :: 0 < k < |u| ==> u[k] == 0x80 + Sixths(cp, |u| - 1 - k) % 0x40
  {
    assert Sixths(cp, 1) == cp / 0x40;
    assert Sixths(cp, 2) == cp / 0x40 / 0x40 == cp / 0x1000;
    assert Sixths(cp, 3) == cp / 0x1000 / 0x40 == cp / 0x40000;
  }

  lemma OneStep(c: bytes, i: nat, e: nat)
    requires i < e < |c|
    ensures c[i] != BACKSLASH ==> Units(c, i, e) == 1 + Units(c, i + 1, e)
    ensures c[i] == BACKSLASH ==> Units(c, i, e) == 1 + Units(c, i + 2, e)
    ensures c[i] != BACKSLASH ==> G.Unescape(c, i, e) == G.Prepend([c[i]], G.Unescape(c, i + 1, e))
    ensures c[i] == BACKSLASH && c[i + 1] == 117 ==>
      match G.Utf16Literal(c, i, e)
      case None => G.Unescape(c, i, e) == G.Err(i)
      case Some((cp, n)) => G.Unescape(c, i, e) == G.Prepend(G.Utf8(cp), G.Unescape(c, i + n, e))
    ensures c[i] == BACKSLASH && c[i + 1] != 117 ==>
      match G.ShortEscape(c[i + 1])
      case None => G.Unescape(c, i, e) == G.Err(i)
      case Some(b) => G.Unescape(c, i, e) == G.Prepend([b], G.Unescape(c, i + 2, e))
  {
    hide G.Utf16Literal, G.ShortEscape, G.Utf8;
  }

  lemma NothingMore(c: bytes, i: nat, e: nat)
    requires e <= i && e < |c|
    ensures G.Unescape(c, i, e) == G.Ok([], i)
  {
  }

  lemma PrependToEnd(a: bytes, n: nat)
    ensures G.Prepend(a, G.Ok([], n)) == G.Ok(a, n)
  {
    assert a + [] == a;
  }

  lemma PrependError(a: bytes, n: nat)
    ensures G.Prepend(a, G.Err(n)) == G.Err(n)
  {
  }

  lemma PrependTwice(a: bytes, b: bytes, r: G.Parsed<bytes>)
    ensures G.Prepend(a, G.Prepend(b, r)) == G.Prepend(a + b, r)
    ensures G.Prepend([], r) == r
  {
    if r.Ok? { assert [] + r.value == r.value; }
    if r.Ok? { assert a + (b + r.value) == a + b + r.value; }
  }
}
