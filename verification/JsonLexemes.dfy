/**
 * JSON texts as RFC 8259 sections 2 to 7 spell them: any white space between the tokens, any numerals, any pieces in
 * a string. The notes that `cJSON_Minify` strips, which JSON itself does not have, are here as well.
 */
module JsonLexemes {
  import opened Bytes
  import opened JsonText
  import opened JsonGrammar
  import opened JsonNumerals
  import opened JsonStrings
  import opened JsonTokens

  datatype Lexeme =
    | Blank(b: byte)
    | Punct(b: byte)
    | Word(value: Json)
    | Digits(n: Numeral)
    | Chars(ps: seq<Piece>)
    | LineNote(body: bytes)
    | BlockNote(body: bytes)

  predicate IsNote(l: Lexeme) { l.LineNote? || l.BlockNote? }

  /** The closing of a block note does not occur in its body. */
  predicate Unclosed(body: bytes) {
    forall k :: 0 <= k < |body| - 1 ==> body[k] != STAR || body[k + 1] != SLASH
  }

  /** White space is every byte up to 32, RFC 8259's four among them. */
  predicate WellFormed(l: Lexeme) {
    match l
    case Blank(b) => b <= 32
    case Punct(b) => IsMark(b)
    case Word(v) => v.Null? || v.False? || v.True?
    case Digits(n) => IsNumeral(n)
    case Chars(ps) => AllValid(ps)
    case LineNote(body) => NEWLINE !in body
    case BlockNote(body) => Unclosed(body)
  }

  function WordText(v: Json): bytes {
    if v.Null? then NULL_TEXT else if v.False? then FALSE_TEXT else TRUE_TEXT
  }

  function Spelled(l: Lexeme): bytes {
    match l
    case Blank(b) => [b]
    case Punct(b) => [b]
    case Word(v) => WordText(v)
    case Digits(n) => NumeralText(n)
    case Chars(ps) => [QUOTE] + (Sources(ps) + [QUOTE])
    case LineNote(body) => [SLASH, SLASH] + (body + [NEWLINE])
    case BlockNote(body) => [SLASH, STAR] + (body + [STAR, SLASH])
  }

  function Spelling(ls: seq<Lexeme>): bytes {
    if ls == [] then [] else Spelled(ls[0]) + Spelling(ls[1..])
  }

  predicate AllWellFormed(ls: seq<Lexeme>) { forall l :: l in ls ==> WellFormed(l) }

  predicate NoNotes(ls: seq<Lexeme>) { forall l :: l in ls ==> !IsNote(l) }

  function TokenOf(l: Lexeme): seq<Token>
    requires WellFormed(l)
  {
    match l
    case Punct(b) => [Mark(b)]
    case Word(v) => [Atom(v)]
    case Digits(n) => [Atom(Number(NumeralValue(n)))]
    case Chars(ps) => [Atom(String(CStr(Meanings(ps))))]
    case _ => []
  }

  function TokensOf(ls: seq<Lexeme>): seq<Token>
    requires AllWellFormed(ls)
  {
    if ls == [] then [] else TokenOf(ls[0]) + TokensOf(ls[1..])
  }

  // ---- reading one lexeme ----

  predicate Stop(c: bytes, off: nat) { off >= |c| || !IsNumberByte(c[off]) }

  lemma {:induction false} NumberEndAt(c: bytes, off: nat, k: nat)
    requires off + k <= |c| && Stop(c, off + k)
    requires forall j :: off <= j < off + k ==> IsNumberByte(c[j])
    ensures NumberEnd(c, off) == off + k
    decreases k
  {
    if k > 0 { NumberEndAt(c, off + 1, k - 1); }
  }

  lemma NumberBytes(n: Numeral)
    requires IsNumeral(n)
    ensures |NumeralText(n)| > 0
    ensures forall b :: b in NumeralText(n) ==> IsNumberByte(b)
    ensures var b := NumeralText(n)[0]; b == MINUS || IsDigit(b)
  {
    assert n.whole[0] in n.whole;
  }

  /** `parse_number` reads any numeral with no number byte behind it, and its value. */
  lemma NumeralReads(c: bytes, off: nat, n: Numeral)
    requires IsNumeral(n) && At(c, off, NumeralText(n)) && Stop(c, off + |NumeralText(n)|)
    ensures ParseNumber(c, off) == Ok(Number(NumeralValue(n)), off + |NumeralText(n)|)
  {
    hide StrToD, IsNumberByte, NumberEnd, IsNumeral, NumeralText, NumeralValue;
    var s := NumeralText(n);
    NumberBytes(n);
    forall j | off <= j < off + |s| ensures IsNumberByte(c[j]) {
      AtIndex(c, off, s, j - off);
      assert s[j - off] in s;
    }
    NumberEndAt(c, off, |s|);
    AtSlice(c, off, s);
    StrToDOfNumeral(n);
  }

  /** What starts a lexeme: a blank, a slash, or the byte that tells which token it is. */
  lemma FirstByte(l: Lexeme)
    requires WellFormed(l)
    ensures |Spelled(l)| > 0
    ensures var b := Spelled(l)[0];
      && b != 0xEF && (l.Blank? <==> b <= 32) && (l.Digits? <==> IsNumberByte(b))
      && (l.Digits? ==> b == MINUS || IsDigit(b)) && (l.Punct? <==> IsMark(b)) && (l.Chars? <==> b == QUOTE)
  {
    if l.Digits? { NumberBytes(l.n); }
  }

  lemma LexemeReads(c: bytes, i: nat, l: Lexeme)
    requires WellFormed(l) && !l.Blank? && !IsNote(l) && At(c, i, Spelled(l))
    requires l.Digits? ==> Stop(c, i + |Spelled(l)|)
    ensures i < |c| && c[i] > 32 && |TokenOf(l)| == 1 && ReadToken(c, i) == Ok(TokenOf(l)[0], i + |Spelled(l)|)
  {
    hide ParseString, ParseNumber, NumeralText, NumeralValue, Sources, Meanings, IsNumberByte, CStr, IsNumeral, At,
         AllValid;
    FirstByte(l);
    AtIndex(c, i, Spelled(l), 0);
    match l
    case Word(v) => WordReads(c, i, v);
    case Digits(n) => NumeralReads(c, i, n); NoWord(c, i);
    case Chars(ps) => LiteralDecodes(c, i, ps); NoWord(c, i);
    case _ =>
  }

  lemma WordReads(c: bytes, i: nat, v: Json)
    requires (v.Null? || v.False? || v.True?) && At(c, i, WordText(v))
    ensures i < |c| && ReadToken(c, i) == Ok(Atom(v), i + |WordText(v)|)
  {
    hide ParseString, ParseNumber;
  }

  lemma NoWord(c: bytes, i: nat)
    requires i < |c| && (c[i] == QUOTE || c[i] == MINUS || IsDigit(c[i]))
    ensures !At(c, i, NULL_TEXT) && !At(c, i, FALSE_TEXT) && !At(c, i, TRUE_TEXT)
  {
  }

  // ---- reading a whole text ----

  predicate Separated(ls: seq<Lexeme>) {
    forall k :: 0 <= k < |ls| - 1 ==> !(ls[k].Digits? && ls[k + 1].Digits?)
  }

  predicate BlankFrom(c: bytes, i: nat, end: nat) {
    i <= end <= |c| && forall j :: i <= j < end ==> c[j] <= 32
  }

  /** A blank in front moves no token. */
  lemma BlankReads(c: bytes, i: nat, ts: seq<Token>, end: nat)
    requires i < |c| && c[i] <= 32
    requires TokensEnd(c, i + 1, ts).Some? && BlankFrom(c, TokensEnd(c, i + 1, ts).value, end)
    ensures TokensEnd(c, i, ts).Some? && BlankFrom(c, TokensEnd(c, i, ts).value, end)
  {
    hide ReadToken;
  }

  /** No number goes on behind a lexeme that no numeral follows. */
  lemma NumberStops(c: bytes, k: nat, rest: seq<Lexeme>)
    requires AllWellFormed(rest) && At(c, k, Spelling(rest)) && Stop(c, k + |Spelling(rest)|)
    requires rest != [] ==> !rest[0].Digits?
    ensures Stop(c, k)
  {
    hide Spelled, WellFormed, IsNumberByte;
    if rest != [] {
      FirstByte(rest[0]);
      AtIndex(c, k, Spelling(rest), 0);
    }
  }

  lemma TokenInFront(c: bytes, i: nat, l: Lexeme, ts: seq<Token>)
    requires WellFormed(l) && !l.Blank? && !IsNote(l) && At(c, i, Spelled(l))
    requires l.Digits? ==> Stop(c, i + |Spelled(l)|)
    ensures TokensEnd(c, i, TokenOf(l) + ts) == TokensEnd(c, i + |Spelled(l)|, ts)
  {
    hide WellFormed, Spelled, TokenOf, TokensEnd, ReadToken, At, Stop;
    LexemeReads(c, i, l);
    TokenHere(c, i, TokenOf(l)[0], ts);
    assert TokenOf(l) == [TokenOf(l)[0]];
  }

  lemma NothingReads(c: bytes, i: nat)
    requires i <= |c|
    ensures TokensEnd(c, i, []) == Some(i) && BlankFrom(c, i, i)
  {
  }

  lemma TokensOpen(ls: seq<Lexeme>)
    requires AllWellFormed(ls) && ls != []
    ensures WellFormed(ls[0]) && AllWellFormed(ls[1..]) && TokensOf(ls) == TokenOf(ls[0]) + TokensOf(ls[1..])
  {
    hide WellFormed, TokenOf;
  }

  lemma FirstAndRest(ls: seq<Lexeme>)
    requires ls != []
    ensures AllWellFormed(ls) ==> WellFormed(ls[0]) && AllWellFormed(ls[1..])
    ensures NoNotes(ls) ==> !IsNote(ls[0]) && NoNotes(ls[1..])
    ensures Separated(ls) ==> Separated(ls[1..]) && (ls[0].Digits? && ls[1..] != [] ==> !ls[1..][0].Digits?)
  {
    hide WellFormed;
  }

  /** The tokens of a text are read where it stands, and nothing but blanks is left of it behind them. */
  lemma {:induction false} TextReads(c: bytes, i: nat, ls: seq<Lexeme>)
    requires AllWellFormed(ls) && NoNotes(ls) && Separated(ls)
    requires i + |Spelling(ls)| <= |c| && At(c, i, Spelling(ls)) && Stop(c, i + |Spelling(ls)|)
    ensures var r := TokensEnd(c, i, TokensOf(ls)); r.Some? && BlankFrom(c, r.value, i + |Spelling(ls)|)
    decreases |ls|
  {
    hide At, Spelled, TokenOf, TokensEnd, WellFormed, Stop, AllWellFormed, NoNotes, Separated, BlankFrom;
    if ls == [] {
      NothingReads(c, i);
    } else {
      FirstAndRest(ls);
      var l, rest := ls[0], ls[1..];
      var k, end := i + |Spelled(l)|, i + |Spelling(ls)|;
      AtSplit(c, i, Spelled(l), Spelling(rest));
      TextReads(c, k, rest);
      if l.Blank? {
        BlankStands(c, i, l);
        BlankReads(c, i, TokensOf(rest), end);
      } else {
        if l.Digits? { NumberStops(c, k, rest); }
        TokenInFront(c, i, l, TokensOf(rest));
      }
    }
  }

  lemma BlankStands(c: bytes, i: nat, l: Lexeme)
    requires WellFormed(l) && l.Blank? && At(c, i, Spelled(l))
    ensures i < |c| && c[i] <= 32 && |Spelled(l)| == 1
    ensures forall ts :: TokenOf(l) + ts == ts
  {
  }

  // ---- texts of trees ----

  /** No two atoms stand side by side. */
  predicate Apart(ts: seq<Token>) {
    forall k :: 0 <= k < |ts| - 1 ==> !(ts[k].Atom? && ts[k + 1].Atom?)
  }

  lemma ApartJoin(a: seq<Token>, b: seq<Token>)
    requires Apart(a) && Apart(b) && b != [] && b[0].Mark?
    ensures Apart(a + b)
  {
    forall k | 0 <= k < |a + b| - 1 ensures !((a + b)[k].Atom? && (a + b)[k + 1].Atom?) {
      if k >= |a| { assert (a + b)[k] == b[k - |a|] && (a + b)[k + 1] == b[k + 1 - |a|]; }
    }
  }

  lemma {:induction false} TreeApart(t: Json)
    ensures Apart(Tokens(t))
    decreases t, 1
  {
    hide ItemTokens, MemberTokens, Apart;
    match t
    case Array(items) => ItemsApart(items); MarkApart(LBRACKET, ItemTokens(items));
    case Object(members) => MembersApart(members); MarkApart(LBRACE, MemberTokens(members));
    case _ => OneApart(Atom(t));
  }

  lemma OneApart(token: Token)
    ensures Apart([token])
  {
  }

  lemma MarkApart(b: byte, ts: seq<Token>)
    requires Apart(ts)
    ensures Apart([Mark(b)] + ts)
  {
    var a := [Mark(b)] + ts;
    forall k | 0 <= k < |a| - 1 ensures !(a[k].Atom? && a[k + 1].Atom?) { if k > 0 { assert a[k] == ts[k - 1]; } }
  }

  lemma CommaApart(more: bool, ts: seq<Token>)
    requires Apart(ts) && ts != [] && (!more ==> ts[0].Mark?)
    ensures var r := Comma(more) + ts; Apart(r) && r != [] && r[0].Mark?
  {
    hide Apart;
    if more { MarkApart(COMMA, ts); } else { assert Comma(more) + ts == ts; }
  }

  lemma {:induction false} ItemsApart(items: seq<Json>)
    ensures Apart(ItemTokens(items)) && |ItemTokens(items)| > 0 && (items == [] ==> ItemTokens(items)[0].Mark?)
    decreases items, 0
  {
    hide Tokens, Apart, Comma;
    if items == [] {
      OneApart(Mark(RBRACKET));
    } else {
      TreeApart(items[0]);
      ItemsApart(items[1..]);
      CommaApart(|items| > 1, ItemTokens(items[1..]));
      ApartJoin(Tokens(items[0]), Comma(|items| > 1) + ItemTokens(items[1..]));
    }
  }

  lemma {:induction false} MembersApart(members: seq<Member>)
    ensures Apart(MemberTokens(members)) && |MemberTokens(members)| > 0
    ensures members == [] ==> MemberTokens(members)[0].Mark?
    decreases members, 0
  {
    hide Tokens, Apart, Comma;
    if members == [] {
      OneApart(Mark(RBRACE));
    } else {
      var m, rest := members[0], Comma(|members| > 1) + MemberTokens(members[1..]);
      TreeApart(m.value);
      MembersApart(members[1..]);
      CommaApart(|members| > 1, MemberTokens(members[1..]));
      ApartJoin(Tokens(m.value), rest);
      MarkApart(COLON, Tokens(m.value) + rest);
      OneApart(Atom(String(m.key)));
      ApartJoin([Atom(String(m.key))], [Mark(COLON)] + (Tokens(m.value) + rest));
      assert MemberTokens(members) == [Atom(String(m.key))] + ([Mark(COLON)] + (Tokens(m.value) + rest));
    }
  }

  lemma ApartTail(a: seq<Token>, b: seq<Token>)
    requires Apart(a + b)
    ensures Apart(b) && (a != [] && b != [] ==> !(a[|a| - 1].Atom? && b[0].Atom?))
  {
    var z := a + b;
    forall k | 0 <= k < |b| - 1 ensures !(b[k].Atom? && b[k + 1].Atom?) {
      assert z[|a| + k] == b[k] && z[|a| + k + 1] == b[k + 1];
    }
    if a != [] && b != [] { assert z[|a| - 1] == a[|a| - 1] && z[|a|] == b[0]; }
  }

  lemma AtomOf(l: Lexeme)
    requires WellFormed(l) && l.Digits?
    ensures |TokenOf(l)| == 1 && TokenOf(l)[0].Atom?
  {
  }

  lemma {:induction false} ApartIsSeparated(ls: seq<Lexeme>)
    requires AllWellFormed(ls) && Apart(TokensOf(ls))
    ensures Separated(ls)
    decreases |ls|
  {
    hide TokenOf, WellFormed, Apart;
    if ls != [] {
      var rest := ls[1..];
      ApartTail(TokenOf(ls[0]), TokensOf(rest));
      ApartIsSeparated(rest);
      if |ls| > 1 && ls[1].Digits? {
        AtomOf(ls[1]);
        assert TokensOf(rest) == TokenOf(ls[1]) + TokensOf(rest[1..]);
        if ls[0].Digits? { AtomOf(ls[0]); }
      }
    }
  }

  /**
   * Every text of a tree is parsed: whatever white space stands between its tokens, whatever digits and pieces spell
   * them, `cJSON_Parse` gives the tree, if and only if it is nested at most 1000 deep, and nothing at all otherwise.
   */
  lemma TextParses(ls: seq<Lexeme>, t: Json)
    requires AllWellFormed(ls) && NoNotes(ls) && TokensOf(ls) == Tokens(t)
    ensures Back(ParseBuffer(Spelling(ls) + [0], true), Nesting(t) <= NESTING_LIMIT, t, |Spelling(ls)|)
  {
    hide Tokens, Nesting, ParseBuffer, TokensEnd, Apart, TokensOf, Spelling, AllWellFormed, NoNotes, Separated,
         BlankFrom, AfterBom, At;
    TreeApart(t);
    ApartIsSeparated(ls);
    var c := Spelling(ls) + [0];
    NoMark(ls, c);
    AtSlice(c, 0, Spelling(ls));
    TextReads(c, 0, ls);
    EndsBlank(c, TokensEnd(c, 0, Tokens(t)).value);
    BufferStands(c, t);
  }

  lemma EndsBlank(c: bytes, n: nat)
    requires c != [] && c[|c| - 1] == 0 && BlankFrom(c, n, |c| - 1)
    ensures n < |c| && forall j :: n <= j < |c| ==> c[j] <= 32
  {
  }

  /** No lexeme starts with the first byte of a byte order mark. */
  lemma NoMark(ls: seq<Lexeme>, c: bytes)
    requires AllWellFormed(ls) && c == Spelling(ls) + [0]
    ensures AfterBom(c) == 0
  {
    hide Spelled, WellFormed;
    if ls != [] {
      FirstByte(ls[0]);
      assert c[0] == Spelled(ls[0])[0];
    }
  }
}
