/** Parsing a printed tree gives the tree back: printed text is one of the texts that spell it. */
module JsonRoundTrip {
  import opened Bytes
  import opened JsonText
  import opened JsonGrammar
  import opened JsonNumerals
  import opened JsonStrings
  import opened JsonTokens
  import opened JsonLexemes

  // ---- numbers ----

  lemma {:induction false} DecimalOfNatText(n: nat)
    ensures AllDigits(NatText(n)) && Decimal(NatText(n)) == n
  {
    var s := NatText(n);
    assert AllDigits(s);
    if n < 10 {
      assert s[..0] == [];
    } else {
      assert s[..|s| - 1] == NatText(n / 10);
      DecimalOfNatText(n / 10);
    }
  }

  function NumeralOf(n: int): Numeral { Numeral(n < 0, NatText(if n < 0 then -n else n), [], None) }

  lemma NumeralOfInt(n: int)
    ensures var k := NumeralOf(n); IsNumeral(k) && NumeralText(k) == IntText(n) && NumeralValue(k) == n as real
  {
    hide NatText, Decimal, PowerOfTen, IsDigit;
    var m: nat := if n < 0 then -n else n;
    DecimalOfNatText(m);
    NoDigits();
    UnitPower();
    assert NatText(m) + ([] + []) == NatText(m) && [] + NatText(m) == NatText(m);
  }

  /** `strtod` reads back what "%d" printed, and all of it. */
  lemma StrToDOfIntText(n: int)
    ensures StrToD(IntText(n)) == Some((n as real, |IntText(n)|))
  {
    hide StrToD, IntText, IsNumeral, NumeralText, NumeralValue, NumeralOf;
    NumeralOfInt(n);
    StrToDOfNumeral(NumeralOf(n));
  }

  lemma NumberBack(c: bytes, off: nat, d: real)
    requires IsInt32(d)
    requires At(c, off, IntText(Saturate(d))) && Stop(c, off + |IntText(Saturate(d))|)
    ensures ParseNumber(c, off) == Ok(Number(d), off + |IntText(Saturate(d))|)
  {
    hide StrToD, IntText, IsNumeral, NumeralText, NumeralValue, NumeralOf, ParseNumber;
    NumeralOfInt(Saturate(d));
    NumeralReads(c, off, NumeralOf(Saturate(d)));
  }

  // ---- strings ----

  /** The piece `print_string_ptr` writes for a byte. */
  function PieceOf(b: byte): Piece {
    if b == QUOTE || b == BACKSLASH then Short(b)
    else if b == 8 then Short(98)
    else if b == 12 then Short(102)
    else if b == 10 then Short(110)
    else if b == 13 then Short(114)
    else if b == 9 then Short(116)
    else if b < 32 then Unit([48, 48, HexDigit(b / 16), HexDigit(b % 16)])
    else Literal(b)
  }

  lemma HexBack(n: int)
    requires 0 <= n < 16
    ensures HexValue(HexDigit(n)) == Some(n)
  {
  }

  lemma PieceOfByte(b: byte)
    ensures var p := PieceOf(b); Valid(p) && Source(p) == EscapeByte(b) && Meaning(p) == [b]
  {
    hide HexNumber, HexValue;
    if b < 32 {
      HexBack(b / 16);
      HexBack(b % 16);
      HexBack(0);
      assert HexDigit(0) == 48;
      HexNumberOfFour([48, 48, HexDigit(b / 16), HexDigit(b % 16)]);
    }
  }

  function Pieces(s: bytes): seq<Piece> {
    if s == [] then [] else [PieceOf(s[0])] + Pieces(s[1..])
  }

  lemma {:induction false} PiecesOfBytes(s: bytes)
    ensures AllValid(Pieces(s)) && Sources(Pieces(s)) == Escape(s) && Meanings(Pieces(s)) == s
  {
    hide PieceOf, EscapeByte, Valid, Meaning, Source;
    if s != [] {
      PieceOfByte(s[0]);
      PiecesOfBytes(s[1..]);
      assert Pieces(s)[1..] == Pieces(s[1..]);
      assert [s[0]] + s[1..] == s;
    }
  }

  lemma EscapedRunsToQuote(c: bytes, off: nat, s: bytes)
    requires At(c, off, Escape(s) + [QUOTE])
    ensures ClosingQuote(c, off) == Some(off + |Escape(s)|)
  {
    hide At, ClosingQuote, Unescape, Escape;
    PiecesOfBytes(s);
    AtSplit(c, off, Escape(s), [QUOTE]);
    AtIndex(c, off + |Escape(s)|, [QUOTE], 0);
    PiecesDecode(c, off, Pieces(s), off + |Escape(s)|);
  }

  lemma UnescapeOfEscape(c: bytes, i: nat, s: bytes, e: nat)
    requires At(c, i, Escape(s)) && i + |Escape(s)| == e < |c|
    ensures Unescape(c, i, e) == Ok(s, e)
  {
    hide At, ClosingQuote, Unescape, Escape;
    PiecesOfBytes(s);
    PiecesDecode(c, i, Pieces(s), e);
  }

  /** `parse_string` inverts `print_string_ptr` on every NUL-free string. */
  lemma StringBack(c: bytes, off: nat, s: bytes)
    requires 0 !in s && At(c, off, Quoted(s))
    ensures ParseString(c, off) == Ok(s, off + |Quoted(s)|)
  {
    hide At, ParseString, Escape;
    PiecesOfBytes(s);
    assert Quoted(s) == [QUOTE] + (Escape(s) + [QUOTE]);
    LiteralDecodes(c, off, Pieces(s));
    CStrOfNulFree(s);
  }

  // ---- printed text as lexemes ----

  function Blanks(w: bytes): seq<Lexeme> {
    if w == [] then [] else [Blank(w[0])] + Blanks(w[1..])
  }

  /** The lexemes of a printed tree; the text they spell is proved to be the printer's. */
  function Laid(t: Json, fmt: bool, level: nat): seq<Lexeme>
    decreases t, 1
  {
    match t
    case Number(d) => [Digits(NumeralOf(Saturate(d)))]
    case String(s) => [Chars(Pieces(s))]
    case Array(items) => [Punct(LBRACKET)] + LaidItems(items, fmt, level + 1)
    case Object(members) =>
      [Punct(LBRACE)] + (Blanks(if fmt then [NEWLINE] else []) + LaidMembers(members, fmt, level + 1))
    case _ => [Word(t)]
  }

  /** Items and the closing bracket. */
  function LaidItems(items: seq<Json>, fmt: bool, level: nat): seq<Lexeme>
    decreases items, 0
  {
    if items == [] then [Punct(RBRACKET)]
    else Laid(items[0], fmt, level) + (LaidComma(|items| > 1, fmt) + LaidItems(items[1..], fmt, level))
  }

  function LaidComma(more: bool, fmt: bool): seq<Lexeme> {
    if more then [Punct(COMMA)] + Blanks(if fmt then [SPACE] else []) else []
  }

  /** Members and the closing brace. */
  function LaidMembers(members: seq<Member>, fmt: bool, level: nat): seq<Lexeme>
    requires level > 0
    decreases members, 0
  {
    if members == [] then Blanks(Indent(fmt, level - 1)) + [Punct(RBRACE)]
    else
      LaidKey(members[0].key, fmt, level) + (Laid(members[0].value, fmt, level) +
      (LaidEnd(|members| > 1, fmt) + LaidMembers(members[1..], fmt, level)))
  }

  function LaidKey(key: bytes, fmt: bool, level: nat): seq<Lexeme> {
    Blanks(Indent(fmt, level)) + ([Chars(Pieces(key)), Punct(COLON)] + Blanks(if fmt then [TAB] else []))
  }

  function LaidEnd(more: bool, fmt: bool): seq<Lexeme> {
    (if more then [Punct(COMMA)] else []) + Blanks(if fmt then [NEWLINE] else [])
  }

  /** What the printer writes: spaces, tabs and newlines, and strings in escaped form. */
  ghost predicate Printed(l: Lexeme) {
    && WellFormed(l) && !IsNote(l)
    && (l.Blank? ==> l.b == SPACE || l.b == TAB || l.b == NEWLINE)
    && (l.Chars? ==> exists s :: 0 !in s && l.ps == Pieces(s))
  }

  ghost predicate AllPrinted(ls: seq<Lexeme>) { forall l :: l in ls ==> Printed(l) }

  /** Printed lexemes with this text and these tokens. */
  ghost predicate Lays(ls: seq<Lexeme>, text: bytes, ts: seq<Token>) {
    AllPrinted(ls) && AllWellFormed(ls) && Spelling(ls) == text && TokensOf(ls) == ts
  }

  lemma {:induction false} SpellingJoins(a: seq<Lexeme>, b: seq<Lexeme>)
    ensures Spelling(a + b) == Spelling(a) + Spelling(b)
    decreases |a|
  {
    hide Spelled;
    if a == [] {
      assert a + b == b;
    } else {
      assert (a + b)[1..] == a[1..] + b;
      SpellingJoins(a[1..], b);
    }
  }

  lemma {:induction false} TokensJoin(a: seq<Lexeme>, b: seq<Lexeme>)
    requires AllWellFormed(a) && AllWellFormed(b)
    ensures AllWellFormed(a + b) && TokensOf(a + b) == TokensOf(a) + TokensOf(b)
    decreases |a|
  {
    hide TokenOf, WellFormed;
    if a == [] {
      assert a + b == b;
    } else {
      assert (a + b)[1..] == a[1..] + b;
      TokensJoin(a[1..], b);
    }
  }

  lemma LaysJoin(a: seq<Lexeme>, x: bytes, p: seq<Token>, b: seq<Lexeme>, y: bytes, q: seq<Token>)
    requires Lays(a, x, p) && Lays(b, y, q)
    ensures Lays(a + b, x + y, p + q)
  {
    hide Printed, WellFormed, Spelling, TokensOf;
    SpellingJoins(a, b);
    TokensJoin(a, b);
  }

  lemma LaysOne(l: Lexeme)
    requires Printed(l)
    ensures Lays([l], Spelled(l), TokenOf(l))
  {
    hide Spelled, TokenOf, WellFormed;
    assert Spelling([l]) == Spelled(l) + [] == Spelled(l);
    assert TokensOf([l]) == TokenOf(l) + [] == TokenOf(l);
  }

  lemma {:induction false} LaysBlanks(w: bytes)
    requires forall k :: 0 <= k < |w| ==> w[k] == SPACE || w[k] == TAB || w[k] == NEWLINE
    ensures Lays(Blanks(w), w, [])
    decreases |w|
  {
    hide Lays;
    if w == [] {
      LaysNothing();
    } else {
      LaysOne(Blank(w[0]));
      LaysBlanks(w[1..]);
      var none: seq<Token> := [];
      LaysJoin([Blank(w[0])], [w[0]], none, Blanks(w[1..]), w[1..], none);
      assert [w[0]] + w[1..] == w && none + none == none;
    }
  }

  lemma LaysNothing()
    ensures Lays([], [], [])
  {
  }

  lemma LaysPunct(b: byte)
    requires IsMark(b)
    ensures Lays([Punct(b)], [b], [Mark(b)])
  {
    hide Lays;
    LaysOne(Punct(b));
  }

  lemma LaysString(s: bytes)
    requires 0 !in s
    ensures Lays([Chars(Pieces(s))], Quoted(s), [Atom(String(s))])
  {
    hide Lays, Pieces, Escape;
    PiecesOfBytes(s);
    CStrOfNulFree(s);
    LaysOne(Chars(Pieces(s)));
    assert [QUOTE] + (Escape(s) + [QUOTE]) == Quoted(s);
  }

  lemma {:induction false} LaysTree(t: Json, fmt: bool, level: nat)
    requires Plain(t)
    ensures Lays(Laid(t, fmt, level), Text(t, fmt, level), Tokens(t))
    decreases t, 1
  {
    hide Lays, Quoted, IntText, NumeralOf, Pieces, Blanks, LaidItems, LaidMembers, ItemsText, MembersText, ItemTokens,
         MemberTokens;
    match t
    case Number(d) =>
      NumeralOfInt(Saturate(d));
      LaysOne(Digits(NumeralOf(Saturate(d))));
    case String(s) =>
      LaysString(s);
    case Array(items) =>
      LaysPunct(LBRACKET);
      LaysItems(items, fmt, level + 1);
      LaysJoin([Punct(LBRACKET)], [LBRACKET], [Mark(LBRACKET)],
               LaidItems(items, fmt, level + 1), ItemsText(items, fmt, level + 1) + [RBRACKET], ItemTokens(items));
      assert [LBRACKET] + (ItemsText(items, fmt, level + 1) + [RBRACKET]) == Text(t, fmt, level);
    case Object(members) =>
      LaysObject(members, fmt, level);
    case _ =>
      LaysOne(Word(t));
  }

  lemma {:induction false} LaysItems(items: seq<Json>, fmt: bool, level: nat)
    requires PlainItems(items)
    ensures Lays(LaidItems(items, fmt, level), ItemsText(items, fmt, level) + [RBRACKET], ItemTokens(items))
    decreases items, 0
  {
    hide Lays, Text, Laid, Tokens, Blanks;
    if items == [] {
      LaysPunct(RBRACKET);
      assert ItemsText(items, fmt, level) + [RBRACKET] == [RBRACKET];
    } else {
      var first, rest := items[0], items[1..];
      var sep := if |items| > 1 then ItemSep(fmt) else [];
      LaysTree(first, fmt, level);
      LaysItems(rest, fmt, level);
      LaysComma(|items| > 1, fmt);
      var tail := ItemsText(rest, fmt, level) + [RBRACKET];
      LaysJoin(LaidComma(|items| > 1, fmt), sep, Comma(|items| > 1), LaidItems(rest, fmt, level), tail,
               ItemTokens(rest));
      LaysJoin(Laid(first, fmt, level), Text(first, fmt, level), Tokens(first),
               LaidComma(|items| > 1, fmt) + LaidItems(rest, fmt, level), sep + tail,
               Comma(|items| > 1) + ItemTokens(rest));
      ItemsSplit(items, fmt, level);
    }
  }

  lemma ItemsSplit(items: seq<Json>, fmt: bool, level: nat)
    requires items != []
    ensures ItemsText(items, fmt, level) + [RBRACKET] ==
      Text(items[0], fmt, level) +
        ((if |items| > 1 then ItemSep(fmt) else []) + (ItemsText(items[1..], fmt, level) + [RBRACKET]))
  {
    hide Text, ItemSep;
    if |items| == 1 {
      assert items[1..] == [];
      NoItems(fmt, level);
    }
  }

  lemma LaysComma(more: bool, fmt: bool)
    ensures Lays(LaidComma(more, fmt), if more then ItemSep(fmt) else [], Comma(more))
  {
    hide Lays, Blanks;
    if more {
      var w := if fmt then [SPACE] else [];
      LaysPunct(COMMA);
      LaysBlanks(w);
      LaysJoin([Punct(COMMA)], [COMMA], [Mark(COMMA)], Blanks(w), w, []);
      assert [COMMA] + w == ItemSep(fmt) && [Mark(COMMA)] + [] == Comma(more);
    } else {
      LaysNothing();
    }
  }

  lemma {:induction false} LaysObject(members: seq<Member>, fmt: bool, level: nat)
    requires PlainMembers(members)
    ensures Lays(Laid(Object(members), fmt, level), Text(Object(members), fmt, level), Tokens(Object(members)))
    decreases members, 1
  {
    hide Lays, Blanks, LaidMembers, MembersText, MemberTokens, ObjectClose;
    var w := if fmt then [NEWLINE] else [];
    var tail := MembersText(members, fmt, level + 1) + ObjectClose(fmt, level);
    LaysPunct(LBRACE);
    LaysBlanks(w);
    LaysMembers(members, fmt, level + 1);
    LaysJoin(Blanks(w), w, [], LaidMembers(members, fmt, level + 1), tail, MemberTokens(members));
    LaysJoin([Punct(LBRACE)], [LBRACE], [Mark(LBRACE)], Blanks(w) + LaidMembers(members, fmt, level + 1), w + tail,
             [] + MemberTokens(members));
    assert [] + MemberTokens(members) == MemberTokens(members);
    assert [LBRACE] + (w + tail) == ObjectOpen(fmt) + tail == Text(Object(members), fmt, level);
  }

  lemma {:induction false} LaysMembers(members: seq<Member>, fmt: bool, level: nat)
    requires PlainMembers(members) && level > 0
    ensures Lays(LaidMembers(members, fmt, level), MembersText(members, fmt, level) + ObjectClose(fmt, level - 1),
                 MemberTokens(members))
    decreases members, 0
  {
    hide Lays, Text, Laid, Tokens, Blanks, LaidKey, LaidEnd, KeyTokens, ObjectClose, Indent, MemberEnd, KeySep, Quoted;
    var close := ObjectClose(fmt, level - 1);
    if members == [] {
      LaysClose(fmt, level - 1);
      assert MembersText(members, fmt, level) + close == close;
    } else {
      var m, rest, more := members[0], members[1..], |members| > 1;
      var v, tail := Text(m.value, fmt, level), MembersText(rest, fmt, level) + close;
      LaysKey(m.key, fmt, level);
      LaysTree(m.value, fmt, level);
      LaysEnd(more, fmt);
      LaysMembers(rest, fmt, level);
      LaysJoin(LaidEnd(more, fmt), MemberEnd(fmt, more), Comma(more), LaidMembers(rest, fmt, level), tail,
               MemberTokens(rest));
      LaysJoin(Laid(m.value, fmt, level), v, Tokens(m.value), LaidEnd(more, fmt) + LaidMembers(rest, fmt, level),
               MemberEnd(fmt, more) + tail, Comma(more) + MemberTokens(rest));
      LaysJoin(LaidKey(m.key, fmt, level), KeyText(m.key, fmt, level), KeyTokens(m.key),
               Laid(m.value, fmt, level) + (LaidEnd(more, fmt) + LaidMembers(rest, fmt, level)),
               v + (MemberEnd(fmt, more) + tail), Tokens(m.value) + (Comma(more) + MemberTokens(rest)));
      MembersSplit(members, fmt, level, close);
    }
  }

  function KeyText(key: bytes, fmt: bool, level: nat): bytes { Indent(fmt, level) + (Quoted(key) + KeySep(fmt)) }

  lemma MembersSplit(members: seq<Member>, fmt: bool, level: nat, close: bytes)
    requires members != []
    ensures var m := members[0];
      MembersText(members, fmt, level) + close == KeyText(m.key, fmt, level) + (Text(m.value, fmt, level) +
        (MemberEnd(fmt, |members| > 1) + (MembersText(members[1..], fmt, level) + close)))
  {
    hide Text, Quoted, KeySep, Indent, MemberEnd;
    var m := members[0];
    Regroup(Indent(fmt, level), Quoted(m.key), KeySep(fmt), Text(m.value, fmt, level), MemberEnd(fmt, |members| > 1),
            MembersText(members[1..], fmt, level), close);
  }

  lemma Regroup(a: bytes, b: bytes, c: bytes, d: bytes, e: bytes, f: bytes, g: bytes)
    ensures a + b + c + d + e + f + g == a + (b + c) + (d + (e + (f + g)))
  {
    assert a + b + c + d + e + f + g == a + (b + c) + d + e + f + g;
    assert a + (b + c) + d + e + f + g == a + (b + c) + d + e + (f + g);
    assert a + (b + c) + d + e + (f + g) == a + (b + c) + d + (e + (f + g));
    assert a + (b + c) + d + (e + (f + g)) == a + (b + c) + (d + (e + (f + g)));
  }

  lemma LaysClose(fmt: bool, level: nat)
    ensures Lays(Blanks(Indent(fmt, level)) + [Punct(RBRACE)], ObjectClose(fmt, level), [Mark(RBRACE)])
  {
    hide Lays, Blanks;
    LaysBlanks(Indent(fmt, level));
    LaysPunct(RBRACE);
    LaysJoin(Blanks(Indent(fmt, level)), Indent(fmt, level), [], [Punct(RBRACE)], [RBRACE], [Mark(RBRACE)]);
    assert [] + [Mark(RBRACE)] == [Mark(RBRACE)];
  }

  lemma LaysKey(key: bytes, fmt: bool, level: nat)
    requires 0 !in key
    ensures Lays(LaidKey(key, fmt, level), KeyText(key, fmt, level), KeyTokens(key))
  {
    hide Lays, Blanks, Pieces, Quoted;
    var w, q := if fmt then [TAB] else [], Chars(Pieces(key));
    LaysBlanks(Indent(fmt, level));
    LaysString(key);
    LaysPunct(COLON);
    LaysBlanks(w);
    LaysJoin([q], Quoted(key), [Atom(String(key))], [Punct(COLON)], [COLON], [Mark(COLON)]);
    LaysJoin([q] + [Punct(COLON)], Quoted(key) + [COLON], [Atom(String(key))] + [Mark(COLON)], Blanks(w), w, []);
    assert [q] + [Punct(COLON)] == [q, Punct(COLON)];
    assert [Atom(String(key))] + [Mark(COLON)] + [] == KeyTokens(key);
    assert Quoted(key) + [COLON] + w == Quoted(key) + KeySep(fmt);
    LaysJoin(Blanks(Indent(fmt, level)), Indent(fmt, level), [], [q, Punct(COLON)] + Blanks(w),
             Quoted(key) + KeySep(fmt), KeyTokens(key));
    assert [] + KeyTokens(key) == KeyTokens(key);
  }

  lemma LaysEnd(more: bool, fmt: bool)
    ensures Lays(LaidEnd(more, fmt), MemberEnd(fmt, more), Comma(more))
  {
    hide Lays, Blanks;
    var w := if fmt then [NEWLINE] else [];
    LaysBlanks(w);
    if more { LaysPunct(COMMA); } else { LaysNothing(); }
    LaysJoin(if more then [Punct(COMMA)] else [], if more then [COMMA] else [], Comma(more), Blanks(w), w, []);
    assert Comma(more) + [] == Comma(more);
  }

  // ---- the round trip ----

  /** The last byte of a text is visible. */
  lemma TextEnds(t: Json, fmt: bool, level: nat)
    ensures var s := Text(t, fmt, level); |s| > 0 && s[|s| - 1] > 32
  {
    hide MembersText, ItemsText, Escape, NatText;
  }

  /** A printed value, found in any buffer, parses back exactly when the depth leaves room for its nesting. */
  lemma ValueBack(c: bytes, off: nat, t: Json, fmt: bool, level: nat, depth: nat)
    requires Plain(t) && depth <= NESTING_LIMIT
    requires At(c, off, Text(t, fmt, level)) && Stop(c, off + |Text(t, fmt, level)|)
    ensures Back(ParseValue(c, off, depth), depth + Nesting(t) <= NESTING_LIMIT, t, off + |Text(t, fmt, level)|)
  {
    hide At, Stop, Text, Laid, Tokens, Nesting, ParseValue, TokensEnd, Printed, AllWellFormed, Spelling, TokensOf,
         Plain, Apart, Separated;
    var s, ls := Text(t, fmt, level), Laid(t, fmt, level);
    LaysTree(t, fmt, level);
    TreeApart(t);
    ApartIsSeparated(ls);
    PrintedHasNoNotes(ls);
    TextStarts(t, fmt, level);
    TextEnds(t, fmt, level);
    AtIndex(c, off, s, 0);
    AtIndex(c, off, s, |s| - 1);
    TextReads(c, off, ls);
    ValueStands(c, off, t, depth);
  }

  lemma PrintedHasNoNotes(ls: seq<Lexeme>)
    requires AllPrinted(ls)
    ensures NoNotes(ls)
  {
  }

  /** The full round trip, for both layouts, with and without the NUL check; deeper trees are refused. */
  lemma RoundTrip(t: Json, fmt: bool, requireNul: bool)
    requires Plain(t)
    ensures Back(ParseBuffer(Text(t, fmt, 0) + [0], requireNul), Nesting(t) <= NESTING_LIMIT, t, |Text(t, fmt, 0)|)
  {
    hide Text, Laid, Tokens, Nesting, ParseValue, TokensEnd, Printed, AllWellFormed, Spelling, TokensOf, Plain, At;
    var s := Text(t, fmt, 0);
    var c := s + [0];
    if requireNul {
      LaysTree(t, fmt, 0);
      PrintedHasNoNotes(Laid(t, fmt, 0));
      TextParses(Laid(t, fmt, 0), t);
    } else {
      TextStarts(t, fmt, 0);
      assert c[0] == s[0] && c[|s|] == 0;
      AtSlice(c, 0, s);
      StartsAtOnce(c);
      ValueBack(c, 0, t, fmt, 0, 0);
    }
  }

  lemma StartsAtOnce(c: bytes)
    requires c != [] && c[0] > 32 && c[0] != 0xEF
    ensures SkipBlank(c, AfterBom(c)) == 0
  {
  }

  /** Two trees that print alike are alike, however deep, whatever layouts they were printed in. */
  lemma PrintingIsInjective(t: Json, fmt: bool, u: Json, fmt': bool)
    requires Plain(t) && Plain(u)
    requires Text(t, fmt, 0) == Text(u, fmt', 0)
    ensures t == u
  {
    hide Text, Laid, Tokens, Printed, AllWellFormed, TokensOf, Plain, TokensEnd;
    var c := Text(t, fmt, 0) + [0];
    TreeStands(t, fmt, c);
    TreeStands(u, fmt', c);
    OneTree(c, 0, t, u);
  }

  lemma TreeStands(t: Json, fmt: bool, c: bytes)
    requires Plain(t) && c == Text(t, fmt, 0) + [0]
    ensures TokensEnd(c, 0, Tokens(t)).Some?
  {
    hide Text, Laid, Tokens, Printed, AllWellFormed, Spelling, TokensOf, Plain, TokensEnd, At, Apart, Separated;
    var ls := Laid(t, fmt, 0);
    LaysTree(t, fmt, 0);
    TreeApart(t);
    ApartIsSeparated(ls);
    PrintedHasNoNotes(ls);
    AtSlice(c, 0, Text(t, fmt, 0));
    TextReads(c, 0, ls);
  }
}
