/** What the parser accepts, token by token: a buffer parses to a tree exactly when it reads as the tree's tokens. */
module JsonTokens {
  import opened Bytes
  import opened JsonText
  import opened JsonGrammar

  /** A keyword, number or string by its value, or one of the six structural bytes. */
  datatype Token = Atom(value: Json) | Mark(b: byte)

  predicate IsMark(b: byte) {
    b == LBRACKET || b == RBRACKET || b == LBRACE || b == RBRACE || b == COMMA || b == COLON
  }

  // ---- the tokens of a tree ----

  function Tokens(t: Json): (ts: seq<Token>)
    ensures |ts| > 0
    decreases t, 1
  {
    match t
    case Array(items) => [Mark(LBRACKET)] + ItemTokens(items)
    case Object(members) => [Mark(LBRACE)] + MemberTokens(members)
    case _ => [Atom(t)]
  }

  function Comma(more: bool): seq<Token> { if more then [Mark(COMMA)] else [] }

  /** Items, the commas between them and the closing bracket. */
  function ItemTokens(items: seq<Json>): seq<Token>
    decreases items, 0
  {
    if items == [] then [Mark(RBRACKET)]
    else Tokens(items[0]) + (Comma(|items| > 1) + ItemTokens(items[1..]))
  }

  function KeyTokens(key: bytes): seq<Token> { [Atom(String(key)), Mark(COLON)] }

  function MemberTokens(members: seq<Member>): seq<Token>
    decreases members, 0
  {
    if members == [] then [Mark(RBRACE)]
    else KeyTokens(members[0].key) +
         (Tokens(members[0].value) + (Comma(|members| > 1) + MemberTokens(members[1..])))
  }

  // ---- tokens in a buffer ----

  function ReadToken(c: bytes, i: nat): (r: Parsed<Token>)
    requires i < |c|
    ensures r.Ok? ==> i < r.next <= |c|
  {
    if IsMark(c[i]) then Ok(Mark(c[i]), i + 1)
    else if At(c, i, NULL_TEXT) then Ok(Atom(Null), i + 4)
    else if At(c, i, FALSE_TEXT) then Ok(Atom(False), i + 5)
    else if At(c, i, TRUE_TEXT) then Ok(Atom(True), i + 4)
    else if c[i] == QUOTE then
      match ParseString(c, i)
      case Err(p) => Err(p)
      case Ok(s, n) => Ok(Atom(String(s)), n)
    else if c[i] == MINUS || IsDigit(c[i]) then
      match ParseNumber(c, i)
      case Err(p) => Err(p)
      case Ok(v, n) => Ok(Atom(v), n)
    else Err(i)
  }

  /** Where `ts` ends when it is read from `i` on, each token with any blanks in front of it; none if it is not. */
  function TokensEnd(c: bytes, i: nat, ts: seq<Token>): (r: Option<nat>)
    ensures r.Some? && i <= |c| ==> i <= r.value <= |c|
    decreases |ts|
  {
    if ts == [] then Some(i)
    else if i >= |c| then None
    else
      var k := ScanBlank(c, i);
      if k == |c| then None
      else
        match ReadToken(c, k)
        case Err(_) => None
        case Ok(token, n) => if token == ts[0] then TokensEnd(c, n, ts[1..]) else None
  }

  function Then(c: bytes, first: Option<nat>, ts: seq<Token>): Option<nat> {
    match first
    case None => None
    case Some(n) => TokensEnd(c, n, ts)
  }

  lemma {:induction false} TokensSplit(c: bytes, i: nat, a: seq<Token>, b: seq<Token>)
    ensures TokensEnd(c, i, a + b) == Then(c, TokensEnd(c, i, a), b)
    decreases |a|
  {
    hide ReadToken, ScanBlank;
    if a == [] {
      assert a + b == b;
    } else {
      assert (a + b)[1..] == a[1..] + b;
      if i < |c| {
        var k := ScanBlank(c, i);
        if k < |c| && ReadToken(c, k).Ok? { TokensSplit(c, ReadToken(c, k).next, a[1..], b); }
      }
    }
  }

  /** Skipping blanks first changes nothing, even where a run of them reaches the end of the buffer. */
  lemma TokensSkip(c: bytes, i: nat, ts: seq<Token>)
    requires ts != []
    ensures TokensEnd(c, i, ts) == TokensEnd(c, SkipBlank(c, i), ts)
  {
    hide ReadToken;
    if i < |c| {
      var k := ScanBlank(c, i);
      if k < |c| { assert ScanBlank(c, k) == k; } else { assert ScanBlank(c, k - 1) == k; }
    }
  }

  /** One token at a visible byte. */
  lemma TokenHere(c: bytes, i: nat, token: Token, ts: seq<Token>)
    requires i < |c| && c[i] > 32
    ensures TokensEnd(c, i, [token] + ts) ==
      var r := ReadToken(c, i); if r.Ok? && r.value == token then TokensEnd(c, r.next, ts) else None
  {
    hide ReadToken;
    assert ScanBlank(c, i) == i;
    assert ([token] + ts)[1..] == ts;
  }

  /** A structural byte behind any blanks. */
  lemma MarkNext(c: bytes, i: nat, b: byte, ts: seq<Token>)
    requires IsMark(b)
    ensures TokensEnd(c, i, [Mark(b)] + ts) ==
      var m := SkipBlank(c, i); if m < |c| && c[m] == b then TokensEnd(c, m + 1, ts) else None
  {
    hide ParseString, ParseNumber, ScanBlank, TokensEnd;
    var m := SkipBlank(c, i);
    TokensSkip(c, i, [Mark(b)] + ts);
    if m < |c| && c[m] > 32 { TokenHere(c, m, Mark(b), ts); } else { NothingVisible(c, m, [Mark(b)] + ts); }
  }

  /** Behind an item or a member: a comma if there are more, else the mark that closes the list. */
  lemma SeparatorNext(c: bytes, i: nat, more: bool, close: byte, ts: seq<Token>)
    requires IsMark(close) && (!more ==> ts == [Mark(close)])
    ensures TokensEnd(c, i, Comma(more) + ts) ==
      var m := SkipBlank(c, i);
      if m < |c| && c[m] == (if more then COMMA else close) then if more then TokensEnd(c, m + 1, ts) else Some(m + 1)
      else None
  {
    hide SkipBlank, ReadToken;
    if more {
      MarkNext(c, i, COMMA, ts);
    } else {
      MarkNext(c, i, close, []);
      assert Comma(more) + ts == [Mark(close)] + [];
    }
  }

  lemma NothingVisible(c: bytes, m: nat, ts: seq<Token>)
    requires ts != [] && (m < |c| ==> c[m] <= 32 && m + 1 == |c|)
    ensures TokensEnd(c, m, ts) == None
  {
    if m < |c| { assert ScanBlank(c, m) == |c|; }
  }

  /** Skipping blanks stops at a visible byte, or at the last byte, or beyond. */
  lemma SkipStops(c: bytes, i: nat)
    ensures var m := SkipBlank(c, i); m < |c| && c[m] <= 32 ==> m + 1 == |c|
  {
  }

  // ---- parsing is reading tokens ----

  /** The outcome is `value`, ending at `end`, if there is such an end and the nesting fits; else it is not `value`. */
  predicate Exactly<T(==)>(r: Parsed<T>, value: T, end: Option<nat>, fits: bool) {
    if fits && end.Some? then r == Ok(value, end.value) else r.Err? || r.value != value
  }

  /** A tree starts with an atom or an opening mark. */
  lemma FirstToken(t: Json)
    ensures Tokens(t)[0] != Mark(RBRACKET) && Tokens(t)[0] != Mark(RBRACE) && Tokens(t)[0] != Mark(COMMA)
  {
  }

  predicate IsAtom(t: Json) { !t.Array? && !t.Object? }

  lemma AtomExactly(c: bytes, off: nat, t: Json, depth: nat)
    requires IsAtom(t) && off < |c| && c[off] > 32
    ensures Exactly(ParseValue(c, off, depth), t, TokensEnd(c, off, Tokens(t)), true)
  {
    hide ParseString, ParseNumber, ParseArray, ParseObject, TokensEnd;
    TokenHere(c, off, Atom(t), []);
    assert [Atom(t)] + [] == Tokens(t);
    NoTokens(c);
    OnlyArrays(c, off, depth);
  }

  lemma NoTokens(c: bytes)
    ensures forall n: nat :: TokensEnd(c, n, []) == Some(n)
  {
  }

  lemma OnlyArrays(c: bytes, off: nat, depth: nat)
    requires off < |c|
    ensures ParseArray(c, off, depth).Ok? ==> ParseArray(c, off, depth).value.Array?
    ensures ParseObject(c, off, depth).Ok? ==> ParseObject(c, off, depth).value.Object?
    ensures ParseNumber(c, off).Ok? ==> ParseNumber(c, off).value.Number?
  {
    hide ParseItems, ParseMembers, StrToD;
  }

  /** `parse_value` at a visible byte: a tree comes out exactly when its tokens stand there and the depth allows it. */
  lemma {:induction false} ValueExactly(c: bytes, off: nat, t: Json, depth: nat)
    requires depth <= NESTING_LIMIT && off < |c| && c[off] > 32
    ensures Exactly(ParseValue(c, off, depth), t, TokensEnd(c, off, Tokens(t)), depth + Nesting(t) <= NESTING_LIMIT)
    decreases t, 4
  {
    hide ParseValue, ParseString, ParseNumber, ParseArray, ParseObject, TokensEnd, ItemTokens, MemberTokens,
         NestingItems, NestingMembers;
    match t
    case Array(items) =>
      TokenHere(c, off, Mark(LBRACKET), ItemTokens(items));
      Dispatch(c, off, depth);
      if c[off] == LBRACKET { ArrayExactly(c, off, items, depth); }
    case Object(members) =>
      TokenHere(c, off, Mark(LBRACE), MemberTokens(members));
      Dispatch(c, off, depth);
      if c[off] == LBRACE { ObjectExactly(c, off, members, depth); }
    case _ =>
      AtomExactly(c, off, t, depth);
  }

  /** Arrays and objects come from their opening bytes only. */
  lemma Dispatch(c: bytes, off: nat, depth: nat)
    requires off < |c|
    ensures if c[off] == LBRACKET then ParseValue(c, off, depth) == ParseArray(c, off, depth)
            else if c[off] == LBRACE then ParseValue(c, off, depth) == ParseObject(c, off, depth)
            else ParseValue(c, off, depth).Err? || IsAtom(ParseValue(c, off, depth).value)
    ensures ParseArray(c, off, depth).Ok? ==> ParseArray(c, off, depth).value.Array?
    ensures ParseObject(c, off, depth).Ok? ==> ParseObject(c, off, depth).value.Object?
  {
    hide ParseString, ParseNumber, ParseArray, ParseObject;
    OnlyArrays(c, off, depth);
  }

  /** The same with blanks in front, as every caller inside an array or object has it. */
  lemma {:induction false} ValueBehindBlanks(c: bytes, off: nat, t: Json, depth: nat)
    requires depth <= NESTING_LIMIT
    ensures Exactly(ParseValue(c, SkipBlank(c, off), depth), t, TokensEnd(c, off, Tokens(t)),
                    depth + Nesting(t) <= NESTING_LIMIT)
    decreases t, 5
  {
    hide ParseString, ParseNumber, ParseArray, ParseObject, TokensEnd, Tokens, Nesting, SkipBlank;
    var k := SkipBlank(c, off);
    TokensSkip(c, off, Tokens(t));
    SkipStops(c, off);
    if k < |c| && c[k] > 32 { ValueExactly(c, k, t, depth); } else { NothingVisible(c, k, Tokens(t)); }
  }

  lemma {:induction false} ArrayExactly(c: bytes, off: nat, items: seq<Json>, depth: nat)
    requires depth <= NESTING_LIMIT && off < |c|
    ensures Exactly(ParseArray(c, off, depth), Array(items), TokensEnd(c, off + 1, ItemTokens(items)),
                    depth + 1 + NestingItems(items) <= NESTING_LIMIT)
    decreases items, 3
  {
    hide ParseItems, TokensEnd, Tokens, SkipBlank, ItemTokens, NestingItems;
    if depth < NESTING_LIMIT {
      var o := SkipBlank(c, off + 1);
      if items == [] {
        NoItemTokens();
        MarkNext(c, off + 1, RBRACKET, []);
        NoTokens(c);
      } else {
        SkipAgain(c, off + 1, items);
        if o < |c| { ItemsExactly(c, o - 1, items, depth + 1); }
      }
    }
  }

  lemma NoItemTokens()
    ensures ItemTokens([]) == [Mark(RBRACKET)] + [] && NestingItems([]) == 0
    ensures MemberTokens([]) == [Mark(RBRACE)] + [] && NestingMembers([]) == 0
  {
  }

  /** The first item is looked for where the blanks end, which is not at the closing bracket. */
  lemma SkipAgain(c: bytes, i: nat, items: seq<Json>)
    requires items != []
    ensures var o := SkipBlank(c, i);
      && TokensEnd(c, i, ItemTokens(items)) == TokensEnd(c, o, ItemTokens(items))
      && (o >= |c| || c[o] == RBRACKET ==> TokensEnd(c, o, ItemTokens(items)) == None)
  {
    hide TokensEnd, Tokens, SkipBlank, ParseString, ParseNumber;
    var o, ts := SkipBlank(c, i), ItemTokens(items);
    FirstToken(items[0]);
    assert ts[0] == Tokens(items[0])[0];
    TokensSkip(c, i, ts);
    if o >= |c| {
      NothingVisible(c, o, ts);
    } else if c[o] == RBRACKET {
      TokenHere(c, o, ts[0], ts[1..]);
      assert [ts[0]] + ts[1..] == ts;
    }
  }

  /** What `parse_array` makes of the bytes behind an item it has read. */
  lemma BehindItem(c: bytes, off: nat, items: seq<Json>, depth: nat)
    requires off < |c| && items != []
    requires var v := ParseValue(c, SkipBlank(c, off + 1), depth); v.Ok? && v.value == items[0]
    ensures var m, r := SkipBlank(c, ParseValue(c, SkipBlank(c, off + 1), depth).next), ParseItems(c, off, depth);
      if |items| == 1 then
        if m < |c| && c[m] == RBRACKET then r == Ok(items, m + 1) else r.Err? || r.value != items
      else
        if m < |c| && c[m] == COMMA then
          var k := ParseItems(c, m, depth);
          if k.Ok? && k.value == items[1..] then r == Ok(items, k.next) else r.Err? || r.value != items
        else r.Err? || r.value != items
  {
    hide ParseValue, SkipBlank;
    assert items == [items[0]] + items[1..] && (|items| == 1 ==> items == [items[0]]);
    var m, r := SkipBlank(c, ParseValue(c, SkipBlank(c, off + 1), depth).next), ParseItems(c, off, depth);
    if m < |c| && c[m] == COMMA && r.Ok? { assert r.value[1..] == ParseItems(c, m, depth).value; }
  }

  lemma {:induction false} ItemsExactly(c: bytes, off: nat, items: seq<Json>, depth: nat)
    requires depth <= NESTING_LIMIT && off < |c| && items != []
    ensures Exactly(ParseItems(c, off, depth), items, TokensEnd(c, off + 1, ItemTokens(items)),
                    depth + NestingItems(items) <= NESTING_LIMIT)
    decreases items, 0
  {
    hide ParseValue, ParseItems, TokensEnd, Tokens, SkipBlank, Nesting, Comma;
    var first, rest := items[0], items[1..];
    ValueBehindBlanks(c, off + 1, first, depth);
    TokensSplit(c, off + 1, Tokens(first), Comma(|items| > 1) + ItemTokens(rest));
    var v := ParseValue(c, SkipBlank(c, off + 1), depth);
    if v.Ok? && v.value == first {
      var m := SkipBlank(c, v.next);
      BehindItem(c, off, items, depth);
      if |items| == 1 { NoItemTokens(); }
      SeparatorNext(c, v.next, |items| > 1, RBRACKET, ItemTokens(rest));
      if |items| > 1 && m < |c| && c[m] == COMMA { ItemsExactly(c, m, rest, depth); }
    } else {
      NotThisItem(c, off, items, depth);
    }
  }

  lemma NotThisItem(c: bytes, off: nat, items: seq<Json>, depth: nat)
    requires off < |c| && items != []
    requires var v := ParseValue(c, SkipBlank(c, off + 1), depth); v.Err? || v.value != items[0]
    ensures ParseItems(c, off, depth).Err? || ParseItems(c, off, depth).value != items
  {
    hide ParseValue, SkipBlank;
  }

  lemma {:induction false} ObjectExactly(c: bytes, off: nat, members: seq<Member>, depth: nat)
    requires depth <= NESTING_LIMIT && off < |c|
    ensures Exactly(ParseObject(c, off, depth), Object(members), TokensEnd(c, off + 1, MemberTokens(members)),
                    depth + 1 + NestingMembers(members) <= NESTING_LIMIT)
    decreases members, 3
  {
    hide ParseMembers, TokensEnd, Tokens, SkipBlank, MemberTokens, NestingMembers;
    if depth < NESTING_LIMIT {
      var o := SkipBlank(c, off + 1);
      if members == [] {
        NoItemTokens();
        MarkNext(c, off + 1, RBRACE, []);
        NoTokens(c);
      } else {
        SkipToKey(c, off + 1, members);
        if o < |c| { MembersExactly(c, o - 1, members, depth + 1); }
      }
    }
  }

  lemma SkipToKey(c: bytes, i: nat, members: seq<Member>)
    requires members != []
    ensures var o := SkipBlank(c, i);
      && TokensEnd(c, i, MemberTokens(members)) == TokensEnd(c, o, MemberTokens(members))
      && (o >= |c| || c[o] == RBRACE ==> TokensEnd(c, o, MemberTokens(members)) == None)
  {
    hide TokensEnd, Tokens, SkipBlank, ParseString, ParseNumber;
    var o, ts := SkipBlank(c, i), MemberTokens(members);
    assert ts[0] == Atom(String(members[0].key));
    TokensSkip(c, i, ts);
    if o >= |c| {
      NothingVisible(c, o, ts);
    } else if c[o] == RBRACE {
      TokenHere(c, o, ts[0], ts[1..]);
      assert [ts[0]] + ts[1..] == ts;
    }
  }

  /** What `parse_object` makes of the bytes behind a member it has read. */
  lemma BehindMember(c: bytes, off: nat, members: seq<Member>, depth: nat)
    requires off + 1 < |c| && members != []
    requires var v := ParseMember(c, off + 1, depth); v.Ok? && v.value == members[0]
    ensures var m, r := SkipBlank(c, ParseMember(c, off + 1, depth).next), ParseMembers(c, off, depth);
      if |members| == 1 then
        if m < |c| && c[m] == RBRACE then r == Ok(members, m + 1) else r.Err? || r.value != members
      else
        if m < |c| && c[m] == COMMA then
          var k := ParseMembers(c, m, depth);
          if k.Ok? && k.value == members[1..] then r == Ok(members, k.next) else r.Err? || r.value != members
        else r.Err? || r.value != members
  {
    hide ParseMember, SkipBlank;
    assert members == [members[0]] + members[1..] && (|members| == 1 ==> members == [members[0]]);
    var m, r := SkipBlank(c, ParseMember(c, off + 1, depth).next), ParseMembers(c, off, depth);
    if m < |c| && c[m] == COMMA && r.Ok? { assert r.value[1..] == ParseMembers(c, m, depth).value; }
  }

  lemma {:induction false} MembersExactly(c: bytes, off: nat, members: seq<Member>, depth: nat)
    requires depth <= NESTING_LIMIT && off < |c| && members != []
    ensures Exactly(ParseMembers(c, off, depth), members, TokensEnd(c, off + 1, MemberTokens(members)),
                    depth + NestingMembers(members) <= NESTING_LIMIT)
    decreases members, 0
  {
    hide ParseMember, ParseMembers, TokensEnd, Tokens, SkipBlank, Nesting, KeyTokens, MemberTokens, Comma;
    var first, rest := members[0], members[1..];
    var head := KeyTokens(first.key) + Tokens(first.value);
    var tail := Comma(|members| > 1) + MemberTokens(rest);
    MembersOpen(members);
    assert MemberTokens(members) == head + tail;
    TokensSplit(c, off + 1, head, tail);
    if off + 1 >= |c| {
      NothingVisible(c, off + 1, MemberTokens(members));
      NotThisMember(c, off, members, depth);
    } else {
      MemberExactly(c, off + 1, first, depth);
      var v := ParseMember(c, off + 1, depth);
      if v.Ok? && v.value == first {
        var m := SkipBlank(c, v.next);
        BehindMember(c, off, members, depth);
        if |members| == 1 { NoItemTokens(); }
        SeparatorNext(c, v.next, |members| > 1, RBRACE, MemberTokens(rest));
        if |members| > 1 && m < |c| && c[m] == COMMA { MembersExactly(c, m, rest, depth); }
      } else {
        NotThisMember(c, off, members, depth);
      }
    }
  }

  lemma NotThisMember(c: bytes, off: nat, members: seq<Member>, depth: nat)
    requires off < |c| && members != []
    requires off + 1 < |c| ==> var v := ParseMember(c, off + 1, depth); v.Err? || v.value != members[0]
    ensures ParseMembers(c, off, depth).Err? || ParseMembers(c, off, depth).value != members
  {
    hide ParseMember, SkipBlank;
  }

  lemma {:induction false} MemberExactly(c: bytes, off: nat, m: Member, depth: nat)
    requires depth <= NESTING_LIMIT && off < |c|
    ensures Exactly(ParseMember(c, off, depth), m, TokensEnd(c, off, KeyTokens(m.key) + Tokens(m.value)),
                    depth + Nesting(m.value) <= NESTING_LIMIT)
    decreases m, 0
  {
    hide ParseString, ParseValue, TokensEnd, Tokens, SkipBlank, Nesting;
    var key, after := Atom(String(m.key)), [Mark(COLON)] + Tokens(m.value);
    assert KeyTokens(m.key) + Tokens(m.value) == [key] + after;
    TokensSkip(c, off, [key] + after);
    var k := SkipBlank(c, off);
    SkipStops(c, off);
    if c[k] <= 32 {
      NothingVisible(c, k, [key] + after);
      NoStringHere(c, k);
    } else {
      TokenHere(c, k, key, after);
      KeyHere(c, k, m.key);
      var s := ParseString(c, k);
      if s.Ok? && s.value == m.key {
        MarkNext(c, s.next, COLON, Tokens(m.value));
        var n := SkipBlank(c, s.next);
        if n < |c| && c[n] == COLON { ValueBehindBlanks(c, n + 1, m.value, depth); }
      }
    }
  }

  lemma NoStringHere(c: bytes, k: nat)
    requires k < |c| && c[k] != QUOTE
    ensures ParseString(c, k).Err?
  {
  }

  /** A key is read by `parse_string` straight away, which is what reading a token comes to. */
  lemma KeyHere(c: bytes, k: nat, key: bytes)
    requires k < |c|
    ensures var r, s := ReadToken(c, k), ParseString(c, k);
      (r.Ok? && r.value == Atom(String(key)) <==> s.Ok? && s.value == key) &&
      (s.Ok? && s.value == key ==> r == Ok(Atom(String(key)), s.next))
  {
    hide ParseString, ParseNumber;
    OnlyArrays(c, k, 0);
    if c[k] != QUOTE { NoStringHere(c, k); }
  }

  // ---- one reading only ----

  /** Two runs of tokens read from the same place: one starts the other. */
  lemma {:induction false} SameReading(c: bytes, i: nat, a: seq<Token>, b: seq<Token>)
    requires TokensEnd(c, i, a).Some? && TokensEnd(c, i, b).Some?
    ensures a <= b || b <= a
    decreases |a|
  {
    hide ReadToken, ScanBlank;
    if a != [] && b != [] {
      SameReading(c, ReadToken(c, ScanBlank(c, i)).next, a[1..], b[1..]);
      assert a == [a[0]] + a[1..] && b == [b[0]] + b[1..];
    }
  }

  /** The tokens of a tree tell where the tree ends and which one it is. */
  lemma {:induction false} TokensFix(t: Json, x: seq<Token>, u: Json, y: seq<Token>)
    requires Tokens(t) + x == Tokens(u) + y
    ensures t == u && x == y
    decreases t, 1
  {
    hide ItemTokens, MemberTokens;
    var a, b := Tokens(t) + x, Tokens(u) + y;
    assert a[0] == Tokens(t)[0] && b[0] == Tokens(u)[0];
    match t
    case Array(items) =>
      assert a[1..] == ItemTokens(items) + x && b[1..] == ItemTokens(u.items) + y;
      ItemsFix(items, x, u.items, y);
    case Object(members) =>
      assert a[1..] == MemberTokens(members) + x && b[1..] == MemberTokens(u.members) + y;
      MembersFix(members, x, u.members, y);
    case _ =>
      assert a[1..] == x && b[1..] == y;
  }

  lemma {:induction false} ItemsFix(ts: seq<Json>, x: seq<Token>, us: seq<Json>, y: seq<Token>)
    requires ItemTokens(ts) + x == ItemTokens(us) + y
    ensures ts == us && x == y
    decreases ts, 0
  {
    hide Tokens;
    var a, b := ItemTokens(ts) + x, ItemTokens(us) + y;
    if ts != [] { FirstToken(ts[0]); assert a[0] == Tokens(ts[0])[0]; }
    if us != [] { FirstToken(us[0]); assert b[0] == Tokens(us[0])[0]; }
    assert ts == [] ==> a[0] == Mark(RBRACKET) && a[1..] == x;
    assert us == [] ==> b[0] == Mark(RBRACKET) && b[1..] == y;
    if ts != [] {
      var p, q := ItemTokens(ts[1..]) + x, ItemTokens(us[1..]) + y;
      ItemsApart(ts, x);
      ItemsApart(us, y);
      TokensFix(ts[0], Comma(|ts| > 1) + p, us[0], Comma(|us| > 1) + q);
      CommaFix(|ts| > 1, p, |us| > 1, q);
      ItemsFix(ts[1..], x, us[1..], y);
      assert ts == [ts[0]] + ts[1..] && us == [us[0]] + us[1..];
    }
  }

  lemma ItemsApart(ts: seq<Json>, x: seq<Token>)
    requires ts != []
    ensures var p := ItemTokens(ts[1..]) + x;
      ItemTokens(ts) + x == Tokens(ts[0]) + (Comma(|ts| > 1) + p) && p != [] && (|ts| == 1 ==> p[0] != Mark(COMMA))
  {
    var z := ItemTokens(ts[1..]);
    ItemsClose(ts[1..]);
    Regroup(Tokens(ts[0]), Comma(|ts| > 1), z, x);
  }

  lemma ItemsClose(ts: seq<Json>)
    ensures |ItemTokens(ts)| > 0 && (ts == [] ==> ItemTokens(ts)[0] == Mark(RBRACKET))
  {
    hide Tokens;
  }

  lemma Regroup(a: seq<Token>, b: seq<Token>, z: seq<Token>, x: seq<Token>)
    ensures a + (b + z) + x == a + (b + (z + x))
  {
  }

  lemma CommaFix(m: bool, p: seq<Token>, n: bool, q: seq<Token>)
    requires p != [] && (!m ==> p[0] != Mark(COMMA)) && q != [] && (!n ==> q[0] != Mark(COMMA))
    requires Comma(m) + p == Comma(n) + q
    ensures m == n && p == q
  {
    var a, b := Comma(m) + p, Comma(n) + q;
    assert a[0] == b[0];
    assert (if m then a[1..] else a) == p && (if n then b[1..] else b) == q;
  }

  lemma {:induction false} MembersFix(ts: seq<Member>, x: seq<Token>, us: seq<Member>, y: seq<Token>)
    requires MemberTokens(ts) + x == MemberTokens(us) + y
    ensures ts == us && x == y
    decreases ts, 0
  {
    hide Tokens;
    var a, b := MemberTokens(ts) + x, MemberTokens(us) + y;
    assert ts == [] ==> a[0] == Mark(RBRACE) && a[1..] == x;
    assert us == [] ==> b[0] == Mark(RBRACE) && b[1..] == y;
    assert ts != [] ==> a[0] == Atom(String(ts[0].key));
    assert us != [] ==> b[0] == Atom(String(us[0].key));
    if ts != [] {
      var p, q := MemberTokens(ts[1..]) + x, MemberTokens(us[1..]) + y;
      MembersApart(ts, x);
      MembersApart(us, y);
      KeysFix(ts[0].key, Tokens(ts[0].value) + (Comma(|ts| > 1) + p), us[0].key,
              Tokens(us[0].value) + (Comma(|us| > 1) + q));
      TokensFix(ts[0].value, Comma(|ts| > 1) + p, us[0].value, Comma(|us| > 1) + q);
      CommaFix(|ts| > 1, p, |us| > 1, q);
      MembersFix(ts[1..], x, us[1..], y);
      assert ts == [ts[0]] + ts[1..] && us == [us[0]] + us[1..];
    }
  }

  lemma KeysFix(k: bytes, p: seq<Token>, l: bytes, q: seq<Token>)
    requires KeyTokens(k) + p == KeyTokens(l) + q
    ensures k == l && p == q
  {
    var a, b := KeyTokens(k) + p, KeyTokens(l) + q;
    assert a[0] == b[0] && a[2..] == p && b[2..] == q;
  }

  lemma MembersApart(ts: seq<Member>, x: seq<Token>)
    requires ts != []
    ensures var p := MemberTokens(ts[1..]) + x;
      && MemberTokens(ts) + x == KeyTokens(ts[0].key) + (Tokens(ts[0].value) + (Comma(|ts| > 1) + p))
      && p != [] && (|ts| == 1 ==> p[0] != Mark(COMMA))
  {
    hide KeyTokens, Tokens, Comma, MemberTokens;
    var k, v, m, z := KeyTokens(ts[0].key), Tokens(ts[0].value), Comma(|ts| > 1), MemberTokens(ts[1..]);
    MembersClose(ts[1..]);
    MembersOpen(ts);
    Regroup(v, m, z, x);
    Shift(k, v + (m + z), x);
  }

  lemma Shift(a: seq<Token>, b: seq<Token>, x: seq<Token>)
    ensures a + b + x == a + (b + x)
  {
  }

  lemma MembersOpen(ts: seq<Member>)
    requires ts != []
    ensures MemberTokens(ts) ==
      KeyTokens(ts[0].key) + (Tokens(ts[0].value) + (Comma(|ts| > 1) + MemberTokens(ts[1..])))
  {
    hide KeyTokens, Tokens, Comma;
  }

  lemma MembersClose(ts: seq<Member>)
    ensures |MemberTokens(ts)| > 0 && (ts == [] ==> MemberTokens(ts)[0] == Mark(RBRACE))
  {
    hide Tokens;
  }

  /** The outcome of parsing what spells a tree: the tree when the nesting limit admits it, an error otherwise. */
  predicate Back<T(==)>(r: Parsed<T>, fits: bool, value: T, next: nat) {
    if fits then r == Ok(value, next) else r.Err?
  }

  lemma OneTree(c: bytes, i: nat, t: Json, u: Json)
    requires TokensEnd(c, i, Tokens(t)).Some? && TokensEnd(c, i, Tokens(u)).Some?
    ensures t == u
  {
    hide TokensEnd, Tokens;
    SameReading(c, i, Tokens(t), Tokens(u));
    if Tokens(t) <= Tokens(u) {
      assert Tokens(t) + Tokens(u)[|Tokens(t)|..] == Tokens(u) + [];
      TokensFix(t, Tokens(u)[|Tokens(t)|..], u, []);
    } else {
      assert Tokens(u) + Tokens(t)[|Tokens(u)|..] == Tokens(t) + [];
      TokensFix(u, Tokens(t)[|Tokens(u)|..], t, []);
    }
  }

  /** Where the tokens of a tree stand, the tree or, for its depth, nothing at all is parsed. */
  lemma ValueStands(c: bytes, off: nat, t: Json, depth: nat)
    requires depth <= NESTING_LIMIT && off < |c| && c[off] > 32 && TokensEnd(c, off, Tokens(t)).Some?
    ensures Back(ParseValue(c, off, depth), depth + Nesting(t) <= NESTING_LIMIT, t,
                 TokensEnd(c, off, Tokens(t)).value)
  {
    hide ParseValue, TokensEnd, Tokens, Nesting;
    ValueExactly(c, off, t, depth);
    var r := ParseValue(c, off, depth);
    if r.Ok? {
      ValueExactly(c, off, r.value, depth);
      OneTree(c, off, t, r.value);
    }
  }

  // ---- whole buffers ----

  /** The tokens of `t`, behind a byte order mark if there is one, then nothing but blanks, the last one a NUL. */
  predicate Spells(c: bytes, t: Json) {
    var end := TokensEnd(c, AfterBom(c), Tokens(t));
    end.Some? && end.value < |c| && c[|c| - 1] == 0 && forall j :: end.value <= j < |c| ==> c[j] <= 32
  }

  /** A whole buffer parses to a tree if and only if it spells the tree and the tree is not nested too deeply. */
  lemma ParsesExactly(c: bytes, t: Json)
    ensures Exactly(ParseBuffer(c, true), t, if Spells(c, t) then Some(|c| - 1) else None, Nesting(t) <= NESTING_LIMIT)
  {
    hide ParseValue, TokensEnd, Tokens, Nesting;
    if c != [] {
      var b := AfterBom(c);
      ValueBehindBlanks(c, b, t, 0);
      var r := ParseValue(c, SkipBlank(c, b), 0);
      if r.Ok? && r.value == t {
        assert TokensEnd(c, b, Tokens(t)) == Some(r.next);
        BlankToTheEnd(c, r.next);
      }
    }
  }

  /** A buffer that spells a tree parses to it or, for its nesting, to nothing. */
  lemma BufferStands(c: bytes, t: Json)
    requires Spells(c, t)
    ensures Back(ParseBuffer(c, true), Nesting(t) <= NESTING_LIMIT, t, |c| - 1)
  {
    hide ParseBuffer, TokensEnd, Tokens, Nesting;
    ParsesExactly(c, t);
    var r := ParseBuffer(c, true);
    if r.Ok? {
      ParsesExactly(c, r.value);
      OneTree(c, AfterBom(c), t, r.value);
    }
  }

  lemma {:induction false} BlankToTheEnd(c: bytes, n: nat)
    requires n <= |c|
    ensures var o := SkipBlank(c, n);
      (o < |c| && c[o] == 0) <==> (n < |c| && c[|c| - 1] == 0 && forall j :: n <= j < |c| ==> c[j] <= 32)
    ensures var o := SkipBlank(c, n); o < |c| && c[o] == 0 ==> o == |c| - 1
  {
  }
}
