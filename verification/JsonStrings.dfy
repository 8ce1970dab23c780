/** Escapes in JSON strings: what they mean, and why the decoded bytes fit the block sized beforehand. */
module JsonStrings {
  import opened Bytes
  import opened JsonText
  import opened JsonGrammar

  // ---- the block sized by the first pass ----

  /** Steps the first pass takes from `i` to `e`: an escaped byte and its backslash count once. */
  function Units(c: bytes, i: nat, e: nat): nat
    requires e <= |c|
    decreases |c| - i
  {
    if i >= e then 0
    else if c[i] == BACKSLASH then 1 + (if i + 2 <= |c| then Units(c, i + 2, e) else 0)
    else 1 + Units(c, i + 1, e)
  }

  lemma {:induction false} UnitsShrink(c: bytes, i: nat, e: nat)
    requires i < |c| && e <= |c|
    ensures Units(c, i + 1, e) <= Units(c, i, e) <= Units(c, i + 1, e) + 1
    decreases |c| - i
  {
    if i < e && c[i] == BACKSLASH && i + 2 <= |c| {
      if i + 1 < |c| { UnitsShrink(c, i + 1, e); }
    }
  }

  lemma {:induction false} UnitsMonotone(c: bytes, i: nat, k: nat, e: nat)
    requires i + k <= |c| && e <= |c|
    ensures Units(c, i + k, e) <= Units(c, i, e)
    decreases k
  {
    if k > 0 {
      UnitsShrink(c, i, e);
      UnitsMonotone(c, i + 1, k - 1, e);
    }
  }

  /** Plain bytes are one unit each. */
  lemma {:induction false} UnitsOfPlain(c: bytes, i: nat, k: nat, e: nat)
    requires i + k <= e <= |c|
    requires forall j :: i <= j < i + k ==> c[j] != BACKSLASH
    ensures Units(c, i, e) == k + Units(c, i + k, e)
    decreases k
  {
    if k > 0 { UnitsOfPlain(c, i + 1, k - 1, e); }
  }

  /** A decoded \u literal never needs more room than the units it swallows, valid digits or not. */
  lemma LiteralFits(c: bytes, i: nat, e: nat)
    requires i < e < |c| && c[i] == BACKSLASH && c[i + 1] == 117
    requires Utf16Literal(c, i, e).Some?
    ensures var (cp, n) := Utf16Literal(c, i, e).value;
      |Utf8(cp)| + Units(c, i + n, e) <= Units(c, i, e)
  {
    hide Units, FromSurrogates, Hex4;
    var (cp, n) := Utf16Literal(c, i, e).value;
    assert Units(c, i, e) == 1 + Units(c, i + 2, e) by { EscapeUnit(c, i, e); }
    if Hex4(c, i + 2) == 0 {
      UnitsMonotone(c, i + 2, 4, e);
    } else {
      GoodDigits(c, i + 2);
      UnitsOfPlain(c, i + 2, 4, e);
      UnitsMonotone(c, i + 6, n - 6, e);
      if n == 12 {
        EscapeUnit(c, i + 6, e);
        UnitsMonotone(c, i + 8, 4, e);
        UnitsMonotone(c, i + 12, 0, e);
      }
    }
  }

  lemma EscapeUnit(c: bytes, i: nat, e: nat)
    requires i < e < |c| && c[i] == BACKSLASH
    ensures Units(c, i, e) == 1 + Units(c, i + 2, e)
  {
  }

  lemma GoodDigits(c: bytes, i: nat)
    requires i + 4 <= |c| && Hex4(c, i) != 0
    ensures forall j :: i <= j < i + 4 ==> c[j] != BACKSLASH
  {
    forall j | i <= j < i + 4 ensures HexValue(c[j]).Some? {
      assert j == i || j == i + 1 || j == i + 2 || j == i + 3;
    }
  }

  /** Whatever the escapes look like, the decoded string is no longer than the units counted. */
  lemma {:induction false} DecodedFits(c: bytes, i: nat, e: nat)
    requires e < |c| && i <= |c| && Unescape(c, i, e).Ok?
    ensures |Unescape(c, i, e).value| <= Units(c, i, e)
    decreases |c| - i
  {
    hide Utf16Literal, Utf8;
    if i < e {
      if c[i] != BACKSLASH {
        DecodedFits(c, i + 1, e);
      } else if c[i + 1] == 117 {
        LiteralFits(c, i, e);
        DecodedFits(c, i + Utf16Literal(c, i, e).value.1, e);
      } else {
        DecodedFits(c, i + 2, e);
      }
    }
  }

  // ---- UTF-8 ----

  predicate IsTail(b: byte) { 0x80 <= b < 0xC0 }

  /** A strict UTF-8 decoder (RFC 3629 section 3): code point and length; overlong forms are refused. */
  function Utf8Decode(s: bytes): Option<(nat, nat)> {
    if s == [] then None
    else if s[0] < 0x80 then Some((s[0], 1))
    else if 0xC2 <= s[0] < 0xE0 && |s| >= 2 && IsTail(s[1]) then
      Some(((s[0] - 0xC0) as nat * 0x40 + (s[1] - 0x80), 2))
    else if 0xE0 <= s[0] < 0xF0 && |s| >= 3 && IsTail(s[1]) && IsTail(s[2]) then
      var cp := ((s[0] - 0xE0) as nat * 0x40 + (s[1] - 0x80)) * 0x40 + (s[2] - 0x80);
      if cp < 0x800 then None else Some((cp, 3))
    else if 0xF0 <= s[0] < 0xF5 && |s| >= 4 && IsTail(s[1]) && IsTail(s[2]) && IsTail(s[3]) then
      var cp := (((s[0] - 0xF0) as nat * 0x40 + (s[1] - 0x80)) * 0x40 + (s[2] - 0x80)) * 0x40 + (s[3] - 0x80);
      if cp < 0x10000 || cp > 0x10FFFF then None else Some((cp, 4))
    else None
  }

  lemma Utf8Back(cp: nat, rest: bytes)
    requires cp <= 0x10FFFF
    ensures Utf8Decode(Utf8(cp) + rest) == Some((cp, |Utf8(cp)|))
  {
    var u := Utf8(cp);
    var s := u + rest;
    assert s[0] == u[0];
    if cp < 0x80 {
    } else if cp < 0x800 {
      assert s[1] == u[1];
      assert cp == cp / 0x40 * 0x40 + cp % 0x40;
    } else if cp < 0x10000 {
      assert s[1] == u[1] && s[2] == u[2];
      assert cp / 0x40 / 0x40 == cp / 0x1000;
    } else {
      assert s[1] == u[1] && s[2] == u[2] && s[3] == u[3];
      assert cp / 0x40 / 0x40 == cp / 0x1000;
      assert cp / 0x1000 / 0x40 == cp / 0x40000;
    }
  }

  // ---- what a string literal means ----

  /** The pieces a valid literal is made of; hex digits may be of either case. */
  datatype Piece =
    | Literal(b: byte)
    | Short(letter: byte)
    | Unit(digits: bytes)
    | Pair(high: bytes, low: bytes)

  predicate IsHex(s: bytes) {
    |s| == 4 && forall i :: 0 <= i < 4 ==> HexValue(s[i]).Some?
  }

  /** Positional value, most significant digit first. */
  function HexNumber(s: bytes): nat
    requires forall i :: 0 <= i < |s| ==> HexValue(s[i]).Some?
  {
    if s == [] then 0 else 16 * HexNumber(s[..|s| - 1]) + HexValue(s[|s| - 1]).value
  }

  predicate Valid(p: Piece) {
    match p
    case Literal(b) => b != QUOTE && b != BACKSLASH
    case Short(l) => ShortEscape(l).Some?
    case Unit(d) => IsHex(d) && !(0xD800 <= HexNumber(d) <= 0xDFFF)
    case Pair(h, l) => IsHex(h) && IsHex(l) && 0xD800 <= HexNumber(h) <= 0xDBFF && 0xDC00 <= HexNumber(l) <= 0xDFFF
  }

  function Source(p: Piece): bytes {
    match p
    case Literal(b) => [b]
    case Short(l) => [BACKSLASH, l]
    case Unit(d) => [BACKSLASH, 117] + d
    case Pair(h, l) => [BACKSLASH, 117] + h + [BACKSLASH, 117] + l
  }

  lemma HexNumberOfFour(s: bytes)
    requires IsHex(s)
    ensures HexNumber(s) ==
      ((HexValue(s[0]).value * 16 + HexValue(s[1]).value) * 16 + HexValue(s[2]).value) * 16 + HexValue(s[3]).value
    ensures HexNumber(s) < 0x10000
  {
    hide HexValue;
    var a, b, d := s[..3], s[..3][..2], s[..3][..2][..1];
    assert s[3] == s[|s| - 1] && a[2] == s[2] && b[1] == s[1] && d[0] == s[0] && d[..0] == [];
    assert HexNumber(d) == HexValue(s[0]).value;
    assert HexNumber(b) == 16 * HexNumber(d) + HexValue(s[1]).value;
    assert HexNumber(a) == 16 * HexNumber(b) + HexValue(s[2]).value;
    HexDigitRange(s[0]);
    HexDigitRange(s[1]);
    HexDigitRange(s[2]);
    HexDigitRange(s[3]);
  }

  lemma HexDigitRange(b: byte)
    ensures HexValue(b).Some? ==> HexValue(b).value < 16
  {
  }

  function Meaning(p: Piece): bytes
    requires Valid(p)
  {
    match p
    case Literal(b) => [b]
    case Short(l) => [ShortEscape(l).value]
    case Unit(d) => HexNumberOfFour(d); Utf8(HexNumber(d))
    case Pair(h, l) => Utf8(0x10000 + (HexNumber(h) - 0xD800) * 0x400 + (HexNumber(l) - 0xDC00))
  }

  predicate AllValid(ps: seq<Piece>) {
    forall i :: 0 <= i < |ps| ==> Valid(ps[i])
  }

  function Sources(ps: seq<Piece>): bytes {
    if ps == [] then [] else Source(ps[0]) + Sources(ps[1..])
  }

  function Meanings(ps: seq<Piece>): bytes
    requires AllValid(ps)
  {
    if ps == [] then [] else Meaning(ps[0]) + Meanings(ps[1..])
  }

  lemma Hex4At(c: bytes, i: nat, d: bytes)
    requires IsHex(d) && At(c, i, d)
    ensures i + 4 <= |c| && Hex4(c, i) == HexNumber(d)
    ensures forall j :: i <= j < i + 4 ==> c[j] != BACKSLASH && c[j] != QUOTE
  {
    hide At, HexNumber;
    HexNumberOfFour(d);
    AtIndex(c, i, d, 0);
    AtIndex(c, i, d, 1);
    AtIndex(c, i, d, 2);
    AtIndex(c, i, d, 3);
    forall j | i <= j < i + 4 ensures HexValue(c[j]).Some? { assert c[j] == d[j - i]; }
  }

  /** Each piece is one step of the second pass. */
  lemma PieceDecodes(c: bytes, i: nat, p: Piece, e: nat)
    requires Valid(p) && At(c, i, Source(p)) && i + |Source(p)| <= e < |c|
    ensures Unescape(c, i, e) == Prepend(Meaning(p), Unescape(c, i + |Source(p)|, e))
  {
    hide At, Hex4, HexNumber, Utf8;
    var s := Source(p);
    AtIndex(c, i, s, 0);
    match p
    case Literal(b) =>
    case Short(l) =>
      AtIndex(c, i, s, 1);
    case Unit(d) =>
      AtIndex(c, i, s, 1);
      AtSplit(c, i, [BACKSLASH, 117], d);
      Hex4At(c, i + 2, d);
      UnitStep(c, i, e);
    case Pair(h, l) =>
      AtIndex(c, i, s, 1);
      AtIndex(c, i, s, 6);
      AtIndex(c, i, s, 7);
      AtSplit(c, i, [BACKSLASH, 117] + h + [BACKSLASH, 117], l);
      AtSplit(c, i, [BACKSLASH, 117] + h, [BACKSLASH, 117]);
      AtSplit(c, i, [BACKSLASH, 117], h);
      Hex4At(c, i + 2, h);
      Hex4At(c, i + 8, l);
      PairStep(c, i, e);
  }

  lemma UnitStep(c: bytes, i: nat, e: nat)
    requires i + 6 <= e < |c| && c[i] == BACKSLASH && c[i + 1] == 117
    requires !(0xD800 <= Hex4(c, i + 2) <= 0xDFFF)
    ensures Unescape(c, i, e) == Prepend(Utf8(Hex4(c, i + 2)), Unescape(c, i + 6, e))
  {
    hide Hex4, Utf8, FromSurrogates;
  }

  lemma PairStep(c: bytes, i: nat, e: nat)
    requires i + 12 <= e < |c| && c[i] == BACKSLASH && c[i + 1] == 117 && c[i + 6] == BACKSLASH && c[i + 7] == 117
    requires 0xD800 <= Hex4(c, i + 2) <= 0xDBFF && 0xDC00 <= Hex4(c, i + 8) <= 0xDFFF
    ensures Unescape(c, i, e) ==
      Prepend(Utf8(0x10000 + (Hex4(c, i + 2) - 0xD800) * 0x400 + (Hex4(c, i + 8) - 0xDC00)), Unescape(c, i + 12, e))
  {
    hide Hex4, Utf8;
    var high, low := Hex4(c, i + 2), Hex4(c, i + 8);
    assert high % 0x400 == high - 0xD800 && low % 0x400 == low - 0xDC00;
  }

  /** Each piece is stepped over by the first pass. */
  lemma PieceIsSkipped(c: bytes, i: nat, p: Piece)
    requires Valid(p) && At(c, i, Source(p))
    ensures i + |Source(p)| <= |c| && ClosingQuote(c, i) == ClosingQuote(c, i + |Source(p)|)
  {
    hide At, HexNumber, Hex4, HexValue;
    var s := Source(p);
    AtIndex(c, i, s, 0);
    match p
    case Literal(b) =>
    case Short(l) =>
      AtIndex(c, i, s, 1);
    case Unit(d) =>
      AtSplit(c, i, [BACKSLASH, 117], d);
      Hex4At(c, i + 2, d);
      FourSkipped(c, i);
    case Pair(h, l) =>
      AtIndex(c, i, s, 6);
      AtSplit(c, i, [BACKSLASH, 117] + h + [BACKSLASH, 117], l);
      AtSplit(c, i, [BACKSLASH, 117] + h, [BACKSLASH, 117]);
      AtSplit(c, i, [BACKSLASH, 117], h);
      Hex4At(c, i + 2, h);
      Hex4At(c, i + 8, l);
      FourSkipped(c, i);
      FourSkipped(c, i + 6);
  }

  lemma FourSkipped(c: bytes, i: nat)
    requires i + 6 <= |c| && c[i] == BACKSLASH
    requires forall j :: i + 2 <= j < i + 6 ==> c[j] != BACKSLASH && c[j] != QUOTE
    ensures ClosingQuote(c, i) == ClosingQuote(c, i + 6)
  {
    assert ClosingQuote(c, i + 2) == ClosingQuote(c, i + 3);
    assert ClosingQuote(c, i + 3) == ClosingQuote(c, i + 4);
    assert ClosingQuote(c, i + 4) == ClosingQuote(c, i + 5);
    assert ClosingQuote(c, i + 5) == ClosingQuote(c, i + 6);
  }

  lemma AtTheEnd(c: bytes, e: nat)
    requires e < |c|
    ensures Unescape(c, e, e) == Ok([], e) && (c[e] == QUOTE ==> ClosingQuote(c, e) == Some(e))
  {
  }

  lemma {:induction false} PiecesDecode(c: bytes, i: nat, ps: seq<Piece>, e: nat)
    requires AllValid(ps) && At(c, i, Sources(ps)) && i + |Sources(ps)| == e < |c|
    ensures Unescape(c, i, e) == Ok(Meanings(ps), e)
    ensures c[e] == QUOTE ==> ClosingQuote(c, i) == Some(e)
    decreases |ps|
  {
    hide Unescape, ClosingQuote, Source, Meaning, Valid, At;
    if ps == [] {
      AtTheEnd(c, e);
    } else {
      AtSplit(c, i, Source(ps[0]), Sources(ps[1..]));
      PieceDecodes(c, i, ps[0], e);
      PieceIsSkipped(c, i, ps[0]);
      PiecesDecode(c, i + |Source(ps[0])|, ps[1..], e);
    }
  }

  /** A quoted run of valid pieces parses to the UTF-8 it stands for, as the C string sees it. */
  lemma LiteralDecodes(c: bytes, off: nat, ps: seq<Piece>)
    requires AllValid(ps) && At(c, off, [QUOTE] + (Sources(ps) + [QUOTE]))
    ensures ParseString(c, off) == Ok(CStr(Meanings(ps)), off + |Sources(ps)| + 2)
  {
    hide Unescape, ClosingQuote, Sources, Meanings, At;
    var s := Sources(ps);
    AtIndex(c, off, [QUOTE] + (s + [QUOTE]), 0);
    AtSplit(c, off, [QUOTE], s + [QUOTE]);
    AtSplit(c, off + 1, s, [QUOTE]);
    AtIndex(c, off + 1 + |s|, [QUOTE], 0);
    PiecesDecode(c, off + 1, ps, off + 1 + |s|);
  }
}
