/** What minified text still means: `cJSON_Minify` on any JSON text, with or without notes, and the parser behind it. */
module JsonMinified {
  import opened Bytes
  import opened JsonText
  import opened JsonGrammar
  import opened JsonNumerals
  import opened JsonStrings
  import opened JsonTokens
  import opened JsonLexemes
  import opened JsonRoundTrip
  import opened JsonMinify

  // ---- which texts keep their meaning ----

  /**
   * Behind a string that ends in an escaped backslash the scanner is inverted: it takes what stands between strings
   * for the inside of one. It stays so until it meets an escaped quote in a string and that string ends otherwise.
   */
  function Turn(l: Lexeme, inverted: bool): bool {
    if l.Chars? then EndsOpen(l.ps) || (inverted && Short(QUOTE) !in l.ps) else inverted
  }

  /** Pieces the scanner loses outside strings: the bytes it takes for white space, and slashes, escaped or not. */
  predicate Dropped(p: Piece) {
    p == Short(SLASH) || (p.Literal? && (IsBlank(p.b) || p.b == SLASH))
  }

  /** Nothing is lost before the first escaped quote. */
  predicate Clear(ps: seq<Piece>) {
    ps == [] || ps[0] == Short(QUOTE) || (!Dropped(ps[0]) && Clear(ps[1..]))
  }

  predicate Safe(l: Lexeme, inverted: bool) {
    inverted ==> !IsNote(l) && (l.Chars? ==> Clear(l.ps))
  }

  /** The scanner meets no note while inverted and no string it would take something from. */
  predicate Survives(ls: seq<Lexeme>, inverted: bool) {
    ls == [] || (Safe(ls[0], inverted) && Survives(ls[1..], Turn(ls[0], inverted)))
  }

  /** Blanks and notes go, except while the scanner is inverted. */
  predicate Keeps(l: Lexeme, inverted: bool) {
    inverted || !(IsNote(l) || (l.Blank? && IsBlank(l.b)))
  }

  function Kept(ls: seq<Lexeme>, inverted: bool): seq<Lexeme> {
    if ls == [] then []
    else (if Keeps(ls[0], inverted) then [ls[0]] else []) + Kept(ls[1..], Turn(ls[0], inverted))
  }

  // ---- one lexeme at a time ----

  lemma {:induction false} AfterLineOf(body: bytes, rest: bytes)
    requires NEWLINE !in body
    ensures AfterLine(body + ([NEWLINE] + rest)) == rest
    decreases |body|
  {
    var w := body + ([NEWLINE] + rest);
    if body == [] {
      assert w == [NEWLINE] + rest && w[1..] == rest;
    } else {
      assert w[0] in body && w[1..] == body[1..] + ([NEWLINE] + rest);
      AfterLineOf(body[1..], rest);
    }
  }

  lemma {:induction false} AfterBlockOf(body: bytes, rest: bytes)
    requires Unclosed(body)
    ensures AfterBlock(body + ([STAR, SLASH] + rest)) == rest
    decreases |body|
  {
    var w := body + ([STAR, SLASH] + rest);
    if body == [] {
      assert w == [STAR, SLASH] + rest && w[2..] == rest;
    } else {
      assert w[0] == body[0] && w[1] == (if |body| > 1 then body[1] else STAR);
      assert w[1..] == body[1..] + ([STAR, SLASH] + rest);
      AfterBlockOf(body[1..], rest);
    }
  }

  lemma LineSkipped(body: bytes, rest: bytes)
    requires NEWLINE !in body
    ensures Outside([SLASH, SLASH] + (body + [NEWLINE]) + rest) == Outside(rest)
  {
    hide AfterLine;
    var w := [SLASH, SLASH] + (body + [NEWLINE]) + rest;
    assert w[2..] == body + ([NEWLINE] + rest);
    AfterLineOf(body, rest);
  }

  lemma BlockSkipped(body: bytes, rest: bytes)
    requires Unclosed(body)
    ensures Outside([SLASH, STAR] + (body + [STAR, SLASH]) + rest) == Outside(rest)
  {
    hide AfterBlock;
    var w := [SLASH, STAR] + (body + [STAR, SLASH]) + rest;
    assert w[2..] == body + ([STAR, SLASH] + rest);
    AfterBlockOf(body, rest);
  }

  /** Structure, keywords, numbers and white space hold no quote, backslash or slash. */
  lemma InertLexeme(l: Lexeme)
    requires WellFormed(l) && !IsNote(l) && !l.Chars?
    ensures forall k :: 0 <= k < |Spelled(l)| ==> Spelled(l)[k] != QUOTE && Spelled(l)[k] != BACKSLASH
    ensures !(l.Blank? && IsBlank(l.b)) ==> forall k :: 0 <= k < |Spelled(l)| ==> IsInert(Spelled(l)[k])
  {
    hide IsNumeral, NumeralText;
    if l.Digits? {
      NumberBytes(l.n);
      forall k | 0 <= k < |Spelled(l)| ensures IsNumberByte(Spelled(l)[k]) { assert Spelled(l)[k] in Spelled(l); }
    }
  }

  lemma PieceInert(p: Piece)
    requires Valid(p) && !Dropped(p) && p != Short(QUOTE)
    ensures forall k :: 0 <= k < |Source(p)| ==> IsInert(Source(p)[k])
  {
    hide HexNumber;
    var s := Source(p);
    match p
    case Literal(b) =>
    case Short(l) =>
    case Unit(d) =>
      forall k | 0 <= k < |s| ensures IsInert(s[k]) { if k >= 2 { HexInert(d, k - 2); assert s[k] == d[k - 2]; } }
    case Pair(h, l) =>
      forall k | 0 <= k < |s| ensures IsInert(s[k]) {
        if 2 <= k < 6 { HexInert(h, k - 2); assert s[k] == h[k - 2]; }
        if k >= 8 { HexInert(l, k - 8); assert s[k] == l[k - 8]; }
      }
  }

  lemma HexInert(d: bytes, k: nat)
    requires IsHex(d) && k < 4
    ensures IsInert(d[k])
  {
    assert HexValue(d[k]).Some?;
  }

  /** A string met while inverted, behind its opening quote. */
  lemma {:induction false} BodyOutside(ps: seq<Piece>, rest: bytes)
    requires AllValid(ps) && Clear(ps)
    ensures Outside(Sources(ps) + ([QUOTE] + rest)) ==
            Sources(ps) + ([QUOTE] + Behind(EndsOpen(ps) || Short(QUOTE) !in ps, rest))
    decreases |ps|
  {
    hide Outside, Inside, Source, Valid, Dropped, EndsOpen;
    if ps == [] {
      OpeningQuote(rest);
      EmptyBody(rest);
    } else {
      var s, tail := Source(ps[0]), Sources(ps[1..]) + ([QUOTE] + rest);
      var behind := [QUOTE] + Behind(EndsOpen(ps) || Short(QUOTE) !in ps, rest);
      BodyOpen(ps, [QUOTE] + rest);
      BodyOpen(ps, behind);
      TurnOfBody(ps);
      if ps[0] == Short(QUOTE) {
        QuoteMet(tail);
        BodyCopied(ps[1..], rest);
      } else {
        PieceInert(ps[0]);
        InertCopied(s, tail);
        BodyOutside(ps[1..], rest);
      }
    }
  }

  lemma EmptyBody(rest: bytes)
    ensures Sources([]) + ([QUOTE] + rest) == [QUOTE] + rest
    ensures Sources([]) + ([QUOTE] + Inside(rest)) == [QUOTE] + Inside(rest)
    ensures !EndsOpen([])
  {
    hide Inside;
  }

  lemma BodyOpen(ps: seq<Piece>, z: bytes)
    requires ps != []
    ensures Sources(ps) + z == Source(ps[0]) + (Sources(ps[1..]) + z)
  {
    hide Source;
  }

  lemma TurnOfBody(ps: seq<Piece>)
    requires ps != []
    ensures ps[0] == Short(QUOTE) ==> (EndsOpen(ps) || Short(QUOTE) !in ps <==> EndsOpen(ps[1..]))
    ensures ps[0] != Short(QUOTE) ==>
              (EndsOpen(ps) || Short(QUOTE) !in ps <==> EndsOpen(ps[1..]) || Short(QUOTE) !in ps[1..])
  {
    assert ps == [ps[0]] + ps[1..];
  }

  lemma QuoteMet(tail: bytes)
    ensures Source(Short(QUOTE)) == [BACKSLASH, QUOTE]
    ensures Outside(Source(Short(QUOTE)) + tail) == Source(Short(QUOTE)) + Inside(tail)
  {
    hide Inside;
    var w := [BACKSLASH, QUOTE] + tail;
    assert w[1..] == [QUOTE] + tail && w[1..][1..] == tail;
  }

  /** What the scanner makes of one lexeme and where it leaves the scanner. */
  lemma LexemeKept(l: Lexeme, inverted: bool, rest: bytes)
    requires WellFormed(l) && Safe(l, inverted)
    ensures Behind(inverted, Spelled(l) + rest) ==
            (if Keeps(l, inverted) then Spelled(l) else []) + Behind(Turn(l, inverted), rest)
  {
    hide Outside, Inside, Sources, AllValid, Clear, EndsOpen;
    var s := Spelled(l);
    if l.Chars? {
      CharsKept(l.ps, inverted, rest);
    } else if IsNote(l) {
      if l.LineNote? { LineSkipped(l.body, rest); } else { BlockSkipped(l.body, rest); }
    } else {
      InertLexeme(l);
      if inverted { InsideCopied(s, rest); }
      else if Keeps(l, inverted) { InertCopied(s, rest); }
      else { BlankSkipped(s, rest); }
    }
  }

  lemma CharsKept(ps: seq<Piece>, inverted: bool, rest: bytes)
    requires AllValid(ps) && Safe(Chars(ps), inverted)
    ensures Behind(inverted, Spelled(Chars(ps)) + rest) ==
            Spelled(Chars(ps)) + Behind(Turn(Chars(ps), inverted), rest)
  {
    hide Outside, Inside, Sources, AllValid, Clear, EndsOpen;
    var w, behind := Sources(ps) + ([QUOTE] + rest), Behind(Turn(Chars(ps), inverted), rest);
    assert Spelled(Chars(ps)) + rest == [QUOTE] + w;
    if inverted {
      ClosingQuoteCopied(w);
      BodyOutside(ps, rest);
    } else {
      OpeningQuote(w);
      BodyCopied(ps, rest);
    }
    assert [QUOTE] + (Sources(ps) + ([QUOTE] + behind)) == Spelled(Chars(ps)) + behind;
  }

  lemma OpeningQuote(w: bytes)
    ensures Outside([QUOTE] + w) == [QUOTE] + Inside(w)
  {
    assert ([QUOTE] + w)[1..] == w;
  }

  // ---- whole texts ----

  lemma KeptFirst(ls: seq<Lexeme>, inverted: bool)
    requires ls != []
    ensures var k := Kept(ls[1..], Turn(ls[0], inverted));
      Kept(ls, inverted) == if Keeps(ls[0], inverted) then [ls[0]] + k else k
  {
  }

  /** A text that survives is left with the same tokens, and without any notes. */
  lemma {:induction false} TextKept(ls: seq<Lexeme>, inverted: bool)
    requires AllWellFormed(ls) && Survives(ls, inverted)
    ensures Behind(inverted, Spelling(ls)) == Spelling(Kept(ls, inverted))
    ensures AllWellFormed(Kept(ls, inverted)) && NoNotes(Kept(ls, inverted))
    ensures TokensOf(Kept(ls, inverted)) == TokensOf(ls)
    decreases |ls|
  {
    hide Spelled, WellFormed, Outside, Inside, Turn, AllWellFormed, NoNotes;
    if ls == [] {
      NothingLeft();
      KeptNothing();
    } else {
      var l, k := ls[0], Kept(ls[1..], Turn(ls[0], inverted));
      FirstAndRest(ls);
      LexemeKept(l, inverted, Spelling(ls[1..]));
      TextKept(ls[1..], Turn(l, inverted));
      KeptFirst(ls, inverted);
      KeptOne(l, k);
      assert [] + Behind(Turn(l, inverted), Spelling(ls[1..])) == Behind(Turn(l, inverted), Spelling(ls[1..]));
    }
  }

  lemma KeptNothing()
    ensures AllWellFormed([]) && NoNotes([])
  {
  }

  lemma KeptOne(l: Lexeme, k: seq<Lexeme>)
    requires WellFormed(l) && AllWellFormed(k) && NoNotes(k)
    ensures AllWellFormed([l] + k) && TokensOf([l] + k) == TokenOf(l) + TokensOf(k)
    ensures Spelling([l] + k) == Spelled(l) + Spelling(k)
    ensures !IsNote(l) ==> NoNotes([l] + k)
    ensures IsNote(l) || l.Blank? ==> TokenOf(l) + TokensOf(k) == TokensOf(k)
  {
    hide WellFormed, Spelled;
    assert ([l] + k)[1..] == k;
  }

  /**
   * Minifying keeps the meaning of every JSON text, with notes between its tokens or without, that holds no string
   * ending in an escaped backslash, or only such that nothing is lost behind it.
   */
  lemma MinifyKeeps(ls: seq<Lexeme>, t: Json)
    requires AllWellFormed(ls) && Survives(ls, false) && TokensOf(ls) == Tokens(t)
    ensures var s := Outside(Spelling(ls)); Back(ParseBuffer(s + [0], true), Nesting(t) <= NESTING_LIMIT, t, |s|)
  {
    hide ParseBuffer, Tokens, Nesting, Spelling, AllWellFormed, NoNotes, Survives, Outside, TokensOf, Kept;
    TextKept(ls, false);
    TextParses(Kept(ls, false), t);
  }

  // ---- texts that do not survive ----

  /** A piece that spells no space or slash by an escape, and no control byte or NUL. */
  predicate Honest(p: Piece) {
    match p
    case Literal(b) => b >= 32
    case Short(l) => l != SLASH
    case Unit(d) => IsHex(d) && HexNumber(d) != 0 && HexNumber(d) != SPACE && HexNumber(d) != SLASH
    case Pair(h, l) => IsHex(h) && IsHex(l) && 0xD800 <= HexNumber(h) <= 0xDBFF && 0xDC00 <= HexNumber(l) <= 0xDFFF
  }

  predicate AllHonest(ps: seq<Piece>) { forall p :: p in ps ==> Valid(p) && Honest(p) }

  /** JSON proper, with honest strings. */
  predicate HonestText(ls: seq<Lexeme>) {
    AllWellFormed(ls) && NoNotes(ls) && HonestStrings(ls)
  }

  predicate HonestStrings(ls: seq<Lexeme>) { forall l :: l in ls && l.Chars? ==> AllHonest(l.ps) }

  /** The first byte of `x`, with its escape if it starts one, decodes to neither a space nor a slash by an escape. */
  predicate HeadOk(x: bytes)
    requires x != []
  {
    x[0] == BACKSLASH ==>
      && |x| > 1
      && (x[1] == 117 ==>
            |x| >= 6 && IsHex(x[2..6]) && HexNumber(x[2..6]) != SPACE && HexNumber(x[2..6]) != SLASH)
      && (x[1] != 117 ==> x[1] != SLASH && ShortEscape(x[1]).Some?)
  }

  function HeadLength(x: bytes): (n: nat)
    requires x != [] && HeadOk(x)
    ensures 0 < n <= |x|
  {
    if x[0] != BACKSLASH then 1 else if x[1] == 117 then 6 else 2
  }

  /** Text cut between two bytes of no escape. */
  predicate Neat(x: bytes)
    decreases |x|
  {
    x == [] || (HeadOk(x) && Neat(x[HeadLength(x)..]))
  }

  lemma {:induction false} NeatPlain(w: bytes, x: bytes)
    requires Neat(x) && forall k :: 0 <= k < |w| ==> w[k] != BACKSLASH
    ensures Neat(w + x)
    decreases |w|
  {
    if w == [] {
      assert w + x == x;
    } else {
      NeatPlain(w[1..], x);
      assert (w + x)[1..] == w[1..] + x;
    }
  }

  lemma NeatUnit(d: bytes, x: bytes)
    requires IsHex(d) && HexNumber(d) != SPACE && HexNumber(d) != SLASH && Neat(x)
    ensures Neat([BACKSLASH, 117] + d + x)
  {
    hide HexNumber, HexValue;
    var y := [BACKSLASH, 117] + d + x;
    assert y[2..6] == d && y[6..] == x;
  }

  lemma NeatPiece(p: Piece, x: bytes)
    requires Valid(p) && Honest(p) && Neat(x)
    ensures Neat(Source(p) + x)
  {
    hide HexNumber, HexValue, Neat, HeadOk, HeadLength;
    match p
    case Literal(b) => NeatPlain([b], x);
    case Short(l) => NeatShort(l, x);
    case Unit(d) => NeatUnit(d, x);
    case Pair(h, l) =>
      NeatUnit(l, x);
      NeatUnit(h, [BACKSLASH, 117] + l + x);
      assert Source(p) + x == [BACKSLASH, 117] + h + ([BACKSLASH, 117] + l + x);
  }

  lemma NeatShort(l: byte, x: bytes)
    requires ShortEscape(l).Some? && l != SLASH && Neat(x)
    ensures Neat([BACKSLASH, l] + x)
  {
    assert ([BACKSLASH, l] + x)[2..] == x;
  }

  lemma {:induction false} NeatBody(ps: seq<Piece>, x: bytes)
    requires AllHonest(ps) && Neat(x)
    ensures Neat(Sources(ps) + x)
    decreases |ps|
  {
    hide Neat, Source, Honest, Valid;
    if ps == [] {
      assert Sources(ps) + x == x;
    } else {
      NeatBody(ps[1..], x);
      NeatPiece(ps[0], Sources(ps[1..]) + x);
      assert Sources(ps) + x == Source(ps[0]) + (Sources(ps[1..]) + x);
    }
  }

  lemma NeatChars(ps: seq<Piece>, x: bytes)
    requires AllHonest(ps) && Neat(x)
    ensures Neat(Sources(ps) + ([QUOTE] + x)) && Neat(Spelled(Chars(ps)) + x)
  {
    hide Neat, Sources, AllHonest;
    NeatPlain([QUOTE], x);
    NeatBody(ps, [QUOTE] + x);
    NeatPlain([QUOTE], Sources(ps) + ([QUOTE] + x));
    assert Spelled(Chars(ps)) + x == [QUOTE] + (Sources(ps) + ([QUOTE] + x));
  }

  lemma {:induction false} NeatText(ls: seq<Lexeme>)
    requires HonestText(ls)
    ensures Neat(Spelling(ls))
    decreases |ls|
  {
    hide Neat, Spelled, WellFormed, AllHonest;
    if ls == [] {
      NeatNothing();
    } else {
      HonestRest(ls);
      NeatText(ls[1..]);
      if ls[0].Chars? {
        NeatChars(ls[0].ps, Spelling(ls[1..]));
      } else {
        InertLexeme(ls[0]);
        NeatPlain(Spelled(ls[0]), Spelling(ls[1..]));
      }
    }
  }

  lemma NeatNothing()
    ensures Neat([])
  {
  }

  lemma HonestRest(ls: seq<Lexeme>)
    requires HonestText(ls) && ls != []
    ensures WellFormed(ls[0]) && !IsNote(ls[0]) && (ls[0].Chars? ==> AllHonest(ls[0].ps)) && HonestText(ls[1..])
  {
    hide WellFormed, AllHonest;
  }

  lemma LineOver(y: bytes, k: nat)
    requires k <= |y| && NEWLINE !in y[..k]
    ensures AfterLine(y) == AfterLine(y[k..])
    decreases k
  {
    if k > 0 {
      assert y[0] == y[..k][0] && y[1..][k - 1..] == y[k..] && y[1..][..k - 1] == y[..k][1..];
      LineOver(y[1..], k - 1);
    }
  }

  lemma {:induction false} NeatAfterLine(y: bytes)
    requires Neat(y)
    ensures Neat(AfterLine(y))
    decreases |y|
  {
    hide HexNumber;
    if y != [] && y[0] != NEWLINE {
      var n := HeadLength(y);
      HeadBytes(y);
      LineOver(y, n);
      NeatAfterLine(y[n..]);
    }
  }

  /** No newline, star, space or slash hides in an escape. */
  lemma HeadBytes(y: bytes)
    requires y != [] && HeadOk(y)
    ensures forall k :: 0 < k < HeadLength(y) ==> y[k] != NEWLINE && y[k] != STAR && y[k] != SLASH && !IsBlank(y[k])
    ensures y[0] != NEWLINE ==> NEWLINE !in y[..HeadLength(y)]
    ensures y[0] == BACKSLASH && y[1] == 117 ==> forall k :: 0 <= k < 6 ==> IsInert(y[k])
  {
    hide HexNumber;
    if y[0] == BACKSLASH && y[1] == 117 {
      forall k | 2 <= k < 6 ensures HexValue(y[k]).Some? { assert y[2..6][k - 2] == y[k]; }
    }
  }

  lemma BlockOver(y: bytes, k: nat)
    requires k <= |y| && STAR !in y[..k]
    ensures AfterBlock(y) == AfterBlock(y[k..])
    decreases k
  {
    if k > 0 {
      assert y[0] == y[..k][0] && y[1..][k - 1..] == y[k..] && y[1..][..k - 1] == y[..k][1..];
      BlockOver(y[1..], k - 1);
    }
  }

  lemma {:induction false} NeatAfterBlock(y: bytes)
    requires Neat(y)
    ensures Neat(AfterBlock(y))
    decreases |y|
  {
    hide HexNumber;
    if y != [] {
      var n := HeadLength(y);
      HeadBytes(y);
      if y[0] != STAR {
        BlockOver(y, n);
        NeatAfterBlock(y[n..]);
      } else if |y| > 1 && y[1] == SLASH {
        assert y[1..][1..] == y[2..];
      } else {
        NeatAfterBlock(y[1..]);
      }
    }
  }

  /** What the scanner lets through first, outside strings, means neither a space nor a slash. */
  lemma {:induction false} HeadLetThrough(w: bytes)
    requires Neat(w)
    ensures var y := Outside(w); y == [] || (y[0] != SPACE && y[0] != SLASH && HeadOk(y))
    decreases |w|
  {
    hide HexNumber, Inside;
    if w == [] {
    } else if IsBlank(w[0]) {
      HeadLetThrough(w[1..]);
    } else if w[0] == SLASH {
      if |w| > 1 && (w[1] == SLASH || w[1] == STAR) {
        assert w[1..][1..] == w[2..];
        NeatAfterLine(w[2..]);
        NeatAfterBlock(w[2..]);
        if w[1] == SLASH { HeadLetThrough(AfterLine(w[2..])); } else { HeadLetThrough(AfterBlock(w[2..])); }
      } else {
        HeadLetThrough(w[1..]);
      }
    } else if w[0] == BACKSLASH {
      EscapeLetThrough(w);
    }
  }

  lemma EscapeLetThrough(w: bytes)
    requires w != [] && w[0] == BACKSLASH && HeadOk(w)
    ensures Outside(w) != [] && Outside(w)[0] == BACKSLASH && HeadOk(Outside(w))
  {
    hide HexNumber, Inside;
    HeadBytes(w);
    if w[1] == 117 {
      hide Outside;
      InertCopied(w[..6], w[6..]);
      assert w[..6] + w[6..] == w;
      assert Outside(w)[2..6] == w[2..6];
    } else {
      NextLetThrough(w[1..]);
      assert Outside(w) == [w[0]] + Outside(w[1..]);
    }
  }

  lemma NextLetThrough(w: bytes)
    requires w != [] && !IsBlank(w[0]) && w[0] != SLASH
    ensures Outside(w) != [] && Outside(w)[0] == w[0]
  {
  }

  /** The first byte decoded from there is neither a space nor a slash. */
  lemma HeadDecoded(c: bytes, i: nat, e: nat, y: bytes)
    requires y == [] || (y[0] != SPACE && y[0] != SLASH && HeadOk(y))
    requires At(c, i, y + [0]) && i <= e < |c| && Unescape(c, i, e).Ok?
    ensures var v := Unescape(c, i, e).value; v == [] || (v[0] != SPACE && v[0] != SLASH)
  {
    hide At, HexNumber, Hex4, IsHex, Unescape, Utf16Literal;
    AtIndex(c, i, y + [0], 0);
    if i == e || c[i] != BACKSLASH {
      PlainDecoded(c, i, e);
    } else {
      AtIndex(c, i, y + [0], 1);
      if y[1] == 117 {
        AtSplit(c, i, y, [0]);
        AtSplit(c, i, y[..2], y[2..]);
        AtSplit(c, i + 2, y[2..6], y[6..]);
        assert y == y[..2] + y[2..] && y[2..] == y[2..6] + y[6..];
        Hex4At(c, i + 2, y[2..6]);
        UnitDecoded(c, i, e);
      } else {
        ShortDecoded(c, i, e);
      }
    }
  }

  lemma PlainDecoded(c: bytes, i: nat, e: nat)
    requires i <= e < |c| && Unescape(c, i, e).Ok?
    ensures var v := Unescape(c, i, e).value;
      (i == e ==> v == []) && (i < e && c[i] != BACKSLASH ==> v != [] && v[0] == c[i])
  {
    hide Utf16Literal;
  }

  lemma ShortDecoded(c: bytes, i: nat, e: nat)
    requires i < e < |c| && c[i] == BACKSLASH && c[i + 1] != 117 && c[i + 1] != SLASH && Unescape(c, i, e).Ok?
    ensures var v := Unescape(c, i, e).value; v != [] && v[0] != SPACE && v[0] != SLASH
  {
    hide Utf16Literal;
  }

  lemma UnitDecoded(c: bytes, i: nat, e: nat)
    requires i < e < |c| && c[i] == BACKSLASH && c[i + 1] == 117 && i + 6 <= |c| && Unescape(c, i, e).Ok?
    requires Hex4(c, i + 2) != SPACE && Hex4(c, i + 2) != SLASH
    ensures var v := Unescape(c, i, e).value; v != [] && v[0] != SPACE && v[0] != SLASH
  {
    hide Hex4, FromSurrogates;
    var u := Utf16Literal(c, i, e);
    assert u.Some?;
    assert Unescape(c, i, e) == Prepend(Utf8(u.value.0), Unescape(c, i + u.value.1, e));
  }

  lemma HonestMeaning(p: Piece)
    requires Valid(p) && Honest(p)
    ensures 0 !in Meaning(p)
  {
    hide HexNumber, IsHex;
    match p
    case Unit(d) => HexNumberOfFour(d);
    case _ =>
  }

  lemma {:induction false} CStrBehind(m: bytes, x: bytes)
    requires 0 !in m
    ensures CStr(m + x) == m + CStr(x)
    decreases |m|
  {
    if m == [] {
      assert m + x == x;
    } else {
      assert (m + x)[1..] == m[1..] + x && m == [m[0]] + m[1..];
      CStrBehind(m[1..], x);
    }
  }

  /** A string from which the scanner takes a space or a slash is not read as it was. */
  lemma {:induction false} BodySpoilt(c: bytes, i: nat, ps: seq<Piece>, rest: bytes, e: nat)
    requires AllValid(ps) && AllHonest(ps) && !Clear(ps) && Neat(rest)
    requires At(c, i, Outside(Sources(ps) + ([QUOTE] + rest)) + [0])
    requires i <= e < |c| && ClosingQuote(c, i) == Some(e) && Unescape(c, i, e).Ok?
    ensures CStr(Unescape(c, i, e).value) != CStr(Meanings(ps))
    decreases |ps|
  {
    hide At, Outside, Source, Valid, Meaning, Unescape, ClosingQuote, Neat, HeadOk, Dropped, Honest, CStr;
    var p, tail := ps[0], Sources(ps[1..]) + ([QUOTE] + rest);
    assert Sources(ps) + ([QUOTE] + rest) == Source(p) + tail;
    if Dropped(p) {
      NeatChars(ps, rest);
      HeadLetThrough(Source(p) + tail);
      HeadDecoded(c, i, e, Outside(Source(p) + tail));
      DroppedMeans(p, Meanings(ps[1..]), Unescape(c, i, e).value);
    } else {
      var k, y := i + |Source(p)|, Outside(tail) + [0];
      PieceInert(p);
      InertCopied(Source(p), tail);
      assert Source(p) + Outside(tail) + [0] == Source(p) + y;
      AtSplit(c, i, Source(p), y);
      PieceIsSkipped(c, i, p);
      PieceDecodes(c, i, p, e);
      BodySpoilt(c, k, ps[1..], rest, e);
      HonestMeaning(p);
      CStrBehind(Meaning(p), Unescape(c, k, e).value);
      CStrBehind(Meaning(p), Meanings(ps[1..]));
      SameBehind(Meaning(p), CStr(Unescape(c, k, e).value), CStr(Meanings(ps[1..])));
    }
  }

  lemma DroppedMeans(p: Piece, m: bytes, v: bytes)
    requires Valid(p) && Honest(p) && Dropped(p) && (v == [] || (v[0] != SPACE && v[0] != SLASH))
    ensures CStr(v) != CStr(Meaning(p) + m)
  {
    hide HexNumber;
    var x := Meaning(p) + m;
    assert x[0] == p.b && CStr(x)[0] == p.b;
  }

  lemma SameBehind(m: bytes, x: bytes, y: bytes)
    requires x != y
    ensures m + x != m + y
  {
    assert (m + x)[|m|..] == x && (m + y)[|m|..] == y;
  }

  /** The first byte left of a text, which a numeral in front of it must not run into. */
  lemma {:induction false} NextByte(ls: seq<Lexeme>, inverted: bool, c: bytes, k: nat)
    requires AllWellFormed(ls) && NoNotes(ls) && At(c, k, Behind(inverted, Spelling(ls)) + [0])
    ensures k < |c| && c[k] != 0xEF
    ensures IsNumberByte(c[k]) ==> TokensOf(ls) != [] && TokensOf(ls)[0].Atom?
    decreases |ls|
  {
    hide At, Outside, Inside, Spelled, WellFormed, AllWellFormed, NoNotes, IsNumberByte, NumeralValue, Meanings, CStr;
    var y := Behind(inverted, Spelling(ls)) + [0];
    AtIndex(c, k, y, 0);
    NothingLeft();
    if ls == [] {
      EndIsNoNumber();
    } else {
      var l, rest := ls[0], ls[1..];
      FirstAndRest(ls);
      FirstByte(l);
      if Keeps(l, inverted) {
        FirstKept(l, inverted, Spelling(rest));
        assert IsNumberByte(c[k]) ==> l.Digits?;
      } else {
        LexemeKept(l, inverted, Spelling(rest));
        assert [] + Behind(inverted, Spelling(rest)) + [0] == Behind(inverted, Spelling(rest)) + [0];
        NextByte(rest, inverted, c, k);
        assert TokenOf(l) + TokensOf(rest) == TokensOf(rest);
      }
    }
  }

  lemma EndIsNoNumber()
    ensures !IsNumberByte(0)
  {
  }

  lemma FirstKept(l: Lexeme, inverted: bool, rest: bytes)
    requires WellFormed(l) && !IsNote(l) && Keeps(l, inverted)
    ensures |Spelled(l)| > 0
    ensures var y := Behind(inverted, Spelled(l) + rest); y != [] && y[0] == Spelled(l)[0]
  {
    hide Outside, Inside, Sources, AllValid, WellFormed;
    FirstByte(l);
    if l.Chars? {
      var w := Sources(l.ps) + [QUOTE] + rest;
      assert Spelled(l) + rest == [QUOTE] + w;
      if inverted { ClosingQuoteCopied(w); } else { OpeningQuote(w); }
    } else {
      LexemeKept(l, inverted, rest);
    }
  }

  /** From a string on that the scanner takes something from, the tokens of a text are not read. */
  lemma {:induction false} TextSpoilt(ls: seq<Lexeme>, inverted: bool, c: bytes, i: nat)
    requires HonestText(ls) && Apart(TokensOf(ls)) && !Survives(ls, inverted)
    requires At(c, i, Behind(inverted, Spelling(ls)) + [0])
    ensures TokensEnd(c, i, TokensOf(ls)) == None
    decreases |ls|
  {
    hide At, Outside, Inside, Spelled, WellFormed, TokensEnd, AllWellFormed, NoNotes, Apart, TokenOf, HonestStrings,
         Neat, Clear, Keeps, Turn;
    var l, rest := ls[0], ls[1..];
    HonestRest(ls);
    ApartRest(ls);
    if Safe(l, inverted) {
      var kept := if Keeps(l, inverted) then Spelled(l) else [];
      var y := Behind(Turn(l, inverted), Spelling(rest)) + [0];
      var k := i + |kept|;
      LexemeKept(l, inverted, Spelling(rest));
      assert kept + Behind(Turn(l, inverted), Spelling(rest)) + [0] == kept + y;
      AtSplit(c, i, kept, y);
      TextSpoilt(rest, Turn(l, inverted), c, k);
      NoneBehind(ls, inverted, c, i);
    } else {
      NeatText(rest);
      StringSpoilt(l, Spelling(rest), c, i, TokensOf(rest));
    }
  }

  lemma ApartRest(ls: seq<Lexeme>)
    requires AllWellFormed(ls) && ls != [] && Apart(TokensOf(ls))
    ensures AllWellFormed(ls[1..]) && Apart(TokensOf(ls[1..]))
    ensures ls[0].Digits? && TokensOf(ls[1..]) != [] ==> !TokensOf(ls[1..])[0].Atom?
  {
    hide WellFormed, TokenOf, Apart, TokensOf, AllWellFormed;
    TokensOpen(ls);
    ApartTail(TokenOf(ls[0]), TokensOf(ls[1..]));
    if ls[0].Digits? { AtomOf(ls[0]); }
  }

  /** Reading fails if it fails behind the first lexeme. */
  lemma NoneBehind(ls: seq<Lexeme>, inverted: bool, c: bytes, i: nat)
    requires HonestText(ls) && ls != [] && Apart(TokensOf(ls)) && Safe(ls[0], inverted)
    requires var k := i + |if Keeps(ls[0], inverted) then Spelled(ls[0]) else []|;
      && At(c, i, if Keeps(ls[0], inverted) then Spelled(ls[0]) else [])
      && At(c, k, Behind(Turn(ls[0], inverted), Spelling(ls[1..])) + [0])
      && AllWellFormed(ls[1..]) && TokensEnd(c, k, TokensOf(ls[1..])) == None
    ensures TokensEnd(c, i, TokensOf(ls)) == None
  {
    hide At, Spelled, WellFormed, TokensEnd, AllWellFormed, NoNotes, Apart, HonestStrings, Safe, Turn, Behind, TokenOf,
         IsNumberByte;
    var l, rest := ls[0], ls[1..];
    HonestRest(ls);
    ApartRest(ls);
    NoTokens(c);
    if l.Blank? {
      NoToken(l);
      if Keeps(l, inverted) {
        BlankStands(c, i, l);
        BlankHere(c, i, TokensOf(rest));
      }
    } else {
      var k := i + |Spelled(l)|;
      AtIndex(c, k, Behind(Turn(l, inverted), Spelling(rest)) + [0], 0);
      if l.Digits? { NextByte(rest, Turn(l, inverted), c, k); }
      TokenInFront(c, i, l, TokensOf(rest));
    }
  }

  lemma BlankHere(c: bytes, i: nat, ts: seq<Token>)
    requires ts != [] && i < |c| && c[i] <= 32
    ensures TokensEnd(c, i, ts) == TokensEnd(c, i + 1, ts)
  {
    hide ReadToken;
  }

  lemma NoToken(l: Lexeme)
    requires WellFormed(l) && l.Blank?
    ensures forall ts :: TokenOf(l) + ts == ts
  {
  }

  lemma StringSpoilt(l: Lexeme, rest: bytes, c: bytes, i: nat, ts: seq<Token>)
    requires WellFormed(l) && !IsNote(l) && !Safe(l, true) && AllHonest(l.ps) && Neat(rest)
    requires At(c, i, Inside(Spelled(l) + rest) + [0])
    ensures TokensEnd(c, i, TokenOf(l) + ts) == None
  {
    hide At, Outside, Inside, Neat, TokensEnd, AllHonest, Clear, ParseNumber, Unescape, ClosingQuote, Sources, Meanings,
         CStr;
    var ps := l.ps;
    var w := Sources(ps) + ([QUOTE] + rest);
    assert Spelled(l) + rest == [QUOTE] + w;
    ClosingQuoteCopied(w);
    assert [QUOTE] + Outside(w) + [0] == [QUOTE] + (Outside(w) + [0]);
    AtSplit(c, i, [QUOTE], Outside(w) + [0]);
    AtIndex(c, i, [QUOTE], 0);
    TokenHere(c, i, Atom(String(CStr(Meanings(ps)))), ts);
    var e := ClosingQuote(c, i + 1);
    if e.Some? && Unescape(c, i + 1, e.value).Ok? { BodySpoilt(c, i + 1, ps, rest, e.value); }
  }

  /**
   * Minifying and parsing a JSON text with honest strings gives the tree it spells, within the nesting limit, if and
   * only if it survives.
   */
  lemma MinifyExactly(ls: seq<Lexeme>, t: Json)
    requires HonestText(ls) && TokensOf(ls) == Tokens(t)
    ensures var s := Outside(Spelling(ls));
      Exactly(ParseBuffer(s + [0], true), t, Some(|s|), Survives(ls, false) && Nesting(t) <= NESTING_LIMIT)
  {
    hide ParseBuffer, Tokens, Nesting, Spelling, AllWellFormed, NoNotes, HonestStrings, Survives, Outside, TokensOf,
         TokensEnd, Apart, At;
    if Survives(ls, false) {
      MinifyKeeps(ls, t);
    } else {
      var c := Outside(Spelling(ls)) + [0];
      TreeApart(t);
      AtSlice(c, 0, c);
      TextSpoilt(ls, false, c, 0);
      NextByte(ls, false, c, 0);
      NoMarkAtStart(c);
      ParsesExactly(c, t);
    }
  }

  lemma NoMarkAtStart(c: bytes)
    requires c != [] && c[0] != 0xEF
    ensures AfterBom(c) == 0
  {
  }

  // ---- printed trees ----

  /** The strings among the tokens, keys included, in the order of the text. */
  function Strings(ts: seq<Token>): seq<bytes> {
    if ts == [] then []
    else (if ts[0].Atom? && ts[0].value.String? then [ts[0].value.s] else []) + Strings(ts[1..])
  }

  /** No space and no slash in front of the first quote. */
  predicate ClearStart(s: bytes) {
    s == [] || s[0] == QUOTE || (s[0] != SPACE && s[0] != SLASH && ClearStart(s[1..]))
  }

  /** Every string met while the scanner is inverted has a clear start. */
  predicate StringsSurvive(ss: seq<bytes>, inverted: bool) {
    ss == [] || ((inverted ==> ClearStart(ss[0])) &&
      StringsSurvive(ss[1..], EndsInBackslash(ss[0]) || (inverted && QUOTE !in ss[0])))
  }

  lemma {:induction false} ClearPieces(s: bytes)
    ensures Clear(Pieces(s)) <==> ClearStart(s)
    ensures Short(QUOTE) in Pieces(s) <==> QUOTE in s
    decreases |s|
  {
    if s != [] {
      ClearPieces(s[1..]);
      assert Pieces(s) == [PieceOf(s[0])] + Pieces(s[1..]) && s == [s[0]] + s[1..];
    }
  }

  lemma {:induction false} HonestPieces(s: bytes)
    requires 0 !in s
    ensures AllHonest(Pieces(s))
  {
    hide Valid, Honest, PieceOf;
    if s != [] {
      PieceOfByte(s[0]);
      HonestByte(s[0]);
      HonestPieces(s[1..]);
    }
  }

  lemma HonestByte(b: byte)
    requires b != 0
    ensures Honest(PieceOf(b))
  {
    hide HexNumber, HexValue;
    if b < 32 {
      HexBack(b / 16);
      HexBack(b % 16);
      HexBack(0);
      HexNumberOfFour([48, 48, HexDigit(b / 16), HexDigit(b % 16)]);
    }
  }

  lemma {:induction false} PrintedHonest(ls: seq<Lexeme>)
    requires AllPrinted(ls)
    ensures HonestText(ls)
  {
    hide AllHonest, Pieces, WellFormed;
    forall l | l in ls && l.Chars? ensures AllHonest(l.ps) {
      assert Printed(l);
      var s :| 0 !in s && l.ps == Pieces(s);
      HonestPieces(s);
    }
  }

  lemma {:induction false} PrintedSurvives(ls: seq<Lexeme>, inverted: bool)
    requires AllPrinted(ls) && AllWellFormed(ls)
    ensures Survives(ls, inverted) <==> StringsSurvive(Strings(TokensOf(ls)), inverted)
    decreases |ls|
  {
    hide WellFormed, Pieces, Clear, ClearStart, EndsOpen, EndsInBackslash, NumeralValue, Meanings, CStr;
    if ls != [] {
      var l, rest := ls[0], ls[1..];
      FirstAndRest(ls);
      assert Printed(l);
      if l.Chars? {
        var s :| 0 !in s && l.ps == Pieces(s);
        ClearPieces(s);
        OpenPieces(s);
        PiecesOfBytes(s);
        CStrOfNulFree(s);
        assert TokensOf(ls) == [Atom(String(s))] + TokensOf(rest);
        assert TokensOf(ls)[1..] == TokensOf(rest);
      } else {
        NotAString(l, TokensOf(rest));
      }
      PrintedSurvives(rest, Turn(l, inverted));
    }
  }

  lemma NotAString(l: Lexeme, ts: seq<Token>)
    requires WellFormed(l) && !l.Chars?
    ensures Strings(TokenOf(l) + ts) == Strings(ts)
  {
    hide IsNumeral, NumeralValue;
    var t := TokenOf(l);
    if t == [] { assert t + ts == ts; } else { assert (t + ts)[1..] == ts; }
  }

  /**
   * Printed with formatting, minified and parsed: the same tree, within the nesting limit, if and only if no string
   * met while the scanner is inverted has a space or a slash in front of its first quote.
   */
  lemma MinifiedParses(t: Json)
    requires Plain(t)
    ensures var s := Outside(Text(t, true, 0));
      Exactly(ParseBuffer(s + [0], true), t, Some(|s|),
              StringsSurvive(Strings(Tokens(t)), false) && Nesting(t) <= NESTING_LIMIT)
  {
    hide Text, Laid, Tokens, Nesting, ParseBuffer, AllPrinted, AllWellFormed, Spelling, TokensOf, Plain, Outside,
         HonestStrings, NoNotes, Survives, StringsSurvive, Strings;
    var ls := Laid(t, true, 0);
    LaysTree(t, true, 0);
    PrintedHonest(ls);
    PrintedSurvives(ls, false);
    MinifyExactly(ls, t);
  }

  // ---- witnesses ----

  lemma PairOfAtoms(x: Json, y: Json)
    requires IsAtom(x) && IsAtom(y)
    ensures var t := Array([x, y]);
      && (Plain(x) && Plain(y) ==> Plain(t)) && Nesting(t) == 1
      && Tokens(t) == [Mark(LBRACKET), Atom(x), Mark(COMMA), Atom(y), Mark(RBRACKET)]
  {
    var items := [x, y];
    assert items[1..] == [y] && [y][1..] == [];
    assert ItemTokens([y]) == Tokens(y) + (Comma(false) + ItemTokens([])) == [Atom(y), Mark(RBRACKET)];
    assert ItemTokens(items) == [Atom(x)] + ([Mark(COMMA)] + ItemTokens([y]));
    assert NestingItems([y]) == 0 && NestingItems(items) == 0;
    assert PlainItems([y]) == Plain(y);
  }

  /** A string ending in a backslash is all that stands before `s`. */
  lemma SecondString(s: bytes)
    requires 0 !in s
    ensures var t := Array([String([BACKSLASH]), String(s)]);
      Plain(t) && Nesting(t) == 1 && (StringsSurvive(Strings(Tokens(t)), false) <==> ClearStart(s))
  {
    hide ClearStart;
    var first := [BACKSLASH];
    PairOfAtoms(String(first), String(s));
    var close := [Mark(RBRACKET)] + [];
    var second := [Atom(String(s))] + close;
    var comma := [Mark(COMMA)] + second;
    var inner := [Atom(String(first))] + comma;
    StringsSkip(Mark(RBRACKET), []);
    StringsKeep(s, close);
    StringsSkip(Mark(COMMA), second);
    StringsKeep(first, comma);
    StringsSkip(Mark(LBRACKET), inner);
    assert Tokens(Array([String(first), String(s)])) == [Mark(LBRACKET)] + inner;
    BehindFirst(first, s);
  }

  lemma BehindFirst(first: bytes, s: bytes)
    requires first == [BACKSLASH]
    ensures StringsSurvive([first] + ([s] + []), false) <==> ClearStart(s)
  {
    hide ClearStart;
    var ss := [first] + ([s] + []);
    assert ss[1..] == [s] && [s][1..] == [] && ss[0] == first;
    assert StringsSurvive([s], true) == ClearStart(s);
  }

  lemma StringsSkip(token: Token, ts: seq<Token>)
    requires token.Mark?
    ensures Strings([token] + ts) == Strings(ts)
  {
    assert ([token] + ts)[1..] == ts;
  }

  lemma StringsKeep(s: bytes, ts: seq<Token>)
    ensures Strings([Atom(String(s))] + ts) == [s] + Strings(ts)
  {
    assert ([Atom(String(s))] + ts)[1..] == ts;
  }

  lemma PairText(x: bytes, y: bytes)
    ensures Text(Array([String(x), String(y)]), true, 0) ==
      [LBRACKET] + (Quoted(x) + ([COMMA, SPACE] + (Quoted(y) + [RBRACKET])))
  {
    hide Quoted;
    var items := [String(x), String(y)];
    assert items[1..] == [String(y)];
    assert ItemsText([String(y)], true, 1) == Quoted(y) + [];
    assert ItemsText(items, true, 1) == Quoted(x) + ([COMMA, SPACE] + Quoted(y));
    assert [LBRACKET] + (Quoted(x) + ([COMMA, SPACE] + Quoted(y))) + [RBRACKET] ==
           [LBRACKET] + (Quoted(x) + ([COMMA, SPACE] + (Quoted(y) + [RBRACKET])));
  }

  lemma Spaced()
    ensures Quoted([97, SPACE, 98]) + [RBRACKET] == [QUOTE] + ([97] + ([SPACE] + [98, QUOTE, RBRACKET]))
    ensures Quoted([97, 98]) + [RBRACKET] == [QUOTE] + ([97] + [98, QUOTE, RBRACKET])
  {
    assert Escape([98]) == [98] + Escape([]) && Escape([SPACE, 98]) == [SPACE] + Escape([98]);
    assert Escape([97, SPACE, 98]) == [97] + Escape([SPACE, 98]) && Escape([97, 98]) == [97] + Escape([98]);
  }

  lemma SpaceTaken()
    ensures Inside(Quoted([97, SPACE, 98]) + [RBRACKET]) == Quoted([97, 98]) + [RBRACKET]
  {
    hide Outside, Inside, Quoted;
    var w: bytes := [98] + ([QUOTE] + [RBRACKET]);
    Spaced();
    assert w == [98, QUOTE, RBRACKET];
    ClosingQuoteCopied([97] + ([SPACE] + w));
    InertCopied([97], [SPACE] + w);
    BlankSkipped([SPACE], w);
    InertCopied([98], [QUOTE] + [RBRACKET]);
    OpeningQuote([RBRACKET]);
    InsideCopied([RBRACKET], []);
    NothingLeft();
    assert [RBRACKET] + [] == [RBRACKET];
  }

  /** A string is altered: minified and parsed, an array of a backslash and "a b" is one of a backslash and "ab". */
  lemma MinifyCanAlter()
    ensures var s := Outside(Text(Array([String([BACKSLASH]), String([97, SPACE, 98])]), true, 0));
      ParseBuffer(s + [0], true) == Ok(Array([String([BACKSLASH]), String([97, 98])]), |s|)
  {
    hide ParseBuffer, Text, Outside, Inside, Quoted;
    var x, y, z := [BACKSLASH], [97, SPACE, 98], [97, 98];
    var w := [COMMA, SPACE] + (Quoted(y) + [RBRACKET]);
    PairText(x, y);
    PairText(x, z);
    InertCopied([LBRACKET], Quoted(x) + w);
    QuotedCopied(x, w);
    InsideCopied([COMMA, SPACE], Quoted(y) + [RBRACKET]);
    SpaceTaken();
    SecondString(z);
    RoundTrip(Array([String(x), String(z)]), true, true);
  }

  /** Only white space stays: minified text that is not the unformatted text may still mean the same. */
  lemma MinifyCanSpare()
    ensures var t := Array([String([BACKSLASH]), Null]);
      var s := Outside(Text(t, true, 0));
      s != Text(t, false, 0) && ParseBuffer(s + [0], true) == Ok(t, |s|)
  {
    hide ParseBuffer, Text, Outside;
    var first := [BACKSLASH];
    var t := Array([String(first), Null]);
    var comma := [Mark(COMMA), Atom(Null), Mark(RBRACKET)];
    PairOfAtoms(String(first), Null);
    StringsKeep(first, comma);
    StringsSkip(Mark(LBRACKET), [Atom(String(first))] + comma);
    assert Tokens(t) == [Mark(LBRACKET)] + ([Atom(String(first))] + comma);
    NoMoreStrings();
    BehindBackslash(first);
    MinifyCanBreak();
    MinifiedParses(t);
  }

  lemma BehindBackslash(first: bytes)
    ensures StringsSurvive([first] + [], false)
  {
    var ss := [first] + [];
    assert |ss[1..]| == 0;
  }

  lemma NoMoreStrings()
    ensures Strings([Mark(COMMA), Atom(Null), Mark(RBRACKET)]) == []
  {
    var ts := [Mark(COMMA), Atom(Null), Mark(RBRACKET)];
    assert ts[1..] == [Atom(Null), Mark(RBRACKET)] && ts[1..][1..] == [Mark(RBRACKET)];
    assert Strings(ts[1..][1..][1..]) == [] && Strings(ts[1..][1..]) == [] && Strings(ts[1..]) == [];
  }
}
