/** What the cJSON parser accepts, as functions from a buffer and an offset. */
module JsonGrammar {
  import opened Bytes
  import opened JsonText

  /** A parse step: the value and the offset behind it, or the offset an error is reported at. */
  datatype Parsed<+T> = Ok(value: T, next: nat) | Err(at: nat)

  // ---- whitespace ----

  /** Every byte up to 32 counts as whitespace, NUL included. */
  function ScanBlank(c: bytes, off: nat): (r: nat)
    requires off <= |c|
    ensures off <= r <= |c|
    ensures forall j :: off <= j < r ==> c[j] <= 32
    ensures r < |c| ==> c[r] > 32
    decreases |c| - off
  {
    if off < |c| && c[off] <= 32 then ScanBlank(c, off + 1) else off
  }

  /** `buffer_skip_whitespace`: a run that reaches the end steps back onto the last byte. */
  function SkipBlank(c: bytes, off: nat): (r: nat)
    ensures off <= r
    ensures off < |c| ==> r < |c|
    ensures off >= |c| ==> r == off
  {
    if off >= |c| then off
    else
      var k := ScanBlank(c, off);
      if k == |c| then k - 1 else k
  }

  // ---- numbers ----

  predicate IsDigit(b: byte) { 48 <= b <= 57 }

  predicate IsNumberByte(b: byte) {
    IsDigit(b) || b == 43 || b == MINUS || b == 101 || b == 69 || b == 46
  }

  function NumberEnd(c: bytes, off: nat): (r: nat)
    requires off <= |c|
    ensures off <= r <= |c|
    ensures forall j :: off <= j < r ==> IsNumberByte(c[j])
    ensures r < |c| ==> !IsNumberByte(c[r])
    decreases |c| - off
  {
    if off < |c| && IsNumberByte(c[off]) then NumberEnd(c, off + 1) else off
  }

  function DigitsEnd(s: bytes, i: nat): (r: nat)
    requires i <= |s|
    ensures i <= r <= |s|
    ensures forall j :: i <= j < r ==> IsDigit(s[j])
    ensures r < |s| ==> !IsDigit(s[r])
    decreases |s| - i
  {
    if i < |s| && IsDigit(s[i]) then DigitsEnd(s, i + 1) else i
  }

  predicate AllDigits(s: bytes) { forall j :: 0 <= j < |s| ==> IsDigit(s[j]) }

  function DigitRun(s: bytes, i: nat): (r: bytes)
    requires i <= |s|
    ensures AllDigits(r) && i + |r| == DigitsEnd(s, i)
  {
    s[i..DigitsEnd(s, i)]
  }

  lemma DigitsJoin(a: bytes, b: bytes)
    requires AllDigits(a) && AllDigits(b)
    ensures AllDigits(a + b)
  {
    hide IsDigit;
  }

  function Decimal(s: bytes): nat
    requires AllDigits(s)
  {
    if s == [] then 0
    else
      assert IsDigit(s[|s| - 1]);
      10 * Decimal(s[..|s| - 1]) + (s[|s| - 1] as int - 48)
  }

  function PowerOfTen(e: int): real
    decreases if e < 0 then -e else e
  {
    if e == 0 then 1.0 else if e > 0 then 10.0 * PowerOfTen(e - 1) else PowerOfTen(e + 1) / 10.0
  }

  function Scale(digits: bytes, power: int): real
    requires AllDigits(digits)
  {
    Decimal(digits) as real * PowerOfTen(power)
  }

  /** `strtod` on the bytes a number may hold, without rounding: value and bytes consumed. */
  function StrToD(s: bytes): (r: Option<(real, nat)>)
    ensures r.Some? ==> 0 < r.value.1 <= |s|
  {
    var signed := s != [] && (s[0] == MINUS || s[0] == 43);
    var i := if signed then 1 else 0;
    var whole := DigitRun(s, i);
    var j := i + |whole|;
    var dot := j < |s| && s[j] == 46;
    var fraction := if dot then DigitRun(s, j + 1) else [];
    if whole == [] && fraction == [] then None
    else
      var (exponent, n) := Exponent(s, if dot then j + 1 + |fraction| else j);
      DigitsJoin(whole, fraction);
      var unsigned := Scale(whole + fraction, exponent - |fraction|);
      Some((if signed && s[0] == MINUS then -unsigned else unsigned, n))
  }

  /** The exponent at `k` and where it ends; without a digit in it there is none. */
  function Exponent(s: bytes, k: nat): (r: (int, nat))
    requires k <= |s|
    ensures k <= r.1 <= |s|
  {
    var x := k < |s| && (s[k] == 101 || s[k] == 69);
    var xsigned := x && k + 1 < |s| && (s[k + 1] == MINUS || s[k + 1] == 43);
    var m := if xsigned then k + 2 else k + 1;
    if x && DigitRun(s, m) != [] then
      var magnitude: int := Decimal(DigitRun(s, m));
      (if xsigned && s[k + 1] == MINUS then -magnitude else magnitude, m + |DigitRun(s, m)|)
    else (0, k)
  }

  function ParseNumber(c: bytes, off: nat): (r: Parsed<Json>)
    requires off <= |c|
    ensures r.Ok? ==> off < r.next <= |c|
  {
    match StrToD(c[off..NumberEnd(c, off)])
    case None => Err(off)
    case Some((d, n)) => Ok(Number(d), off + n)
  }

  // ---- strings ----

  /** First pass of `parse_string`: the closing quote, stepping over every escaped byte. */
  function ClosingQuote(c: bytes, j: nat): (r: Option<nat>)
    requires j <= |c|
    ensures r.Some? ==> j <= r.value < |c| && c[r.value] == QUOTE
    decreases |c| - j
  {
    if j >= |c| then None
    else if c[j] == QUOTE then Some(j)
    else if c[j] == BACKSLASH then if j + 1 >= |c| then None else ClosingQuote(c, j + 2)
    else ClosingQuote(c, j + 1)
  }

  function HexValue(b: byte): (r: Option<nat>)
    ensures r.Some? ==> r.value < 16
  {
    if 48 <= b <= 57 then Some(b - 48)
    else if 65 <= b <= 70 then Some(b - 55)
    else if 97 <= b <= 102 then Some(b - 87)
    else None
  }

  /** `parse_hex4`: one bad digit makes the whole value 0. */
  function Hex4(c: bytes, i: nat): (r: nat)
    requires i + 4 <= |c|
    ensures r < 0x10000
  {
    match (HexPair(c[i], c[i + 1]), HexPair(c[i + 2], c[i + 3]))
    case (Some(high), Some(low)) => 256 * high + low
    case _ => 0
  }

  function HexPair(x: byte, y: byte): (r: Option<nat>)
    ensures r.Some? ==> r.value < 256
    ensures r.Some? <==> HexValue(x).Some? && HexValue(y).Some?
  {
    match (HexValue(x), HexValue(y))
    case (Some(a), Some(b)) => Some(a * 16 + b)
    case _ => None
  }

  /** Four good digits can be read off the value again, most significant first; with any bad one the value is 0. */
  lemma Hex4Reads(c: bytes, i: nat)
    requires i + 4 <= |c|
    ensures var r, a, b, d, e := Hex4(c, i), HexValue(c[i]), HexValue(c[i + 1]), HexValue(c[i + 2]), HexValue(c[i + 3]);
      if a.Some? && b.Some? && d.Some? && e.Some? then
        r / 0x1000 == a.value && r / 0x100 % 16 == b.value && r / 0x10 % 16 == d.value && r % 16 == e.value
      else r == 0
  {
    hide HexValue;
    var a, b, d, e := HexValue(c[i]), HexValue(c[i + 1]), HexValue(c[i + 2]), HexValue(c[i + 3]);
    if a.Some? && b.Some? && d.Some? && e.Some? {
      DigitsBack(a.value, b.value, d.value, e.value);
    }
  }

  lemma DigitsBack(a: nat, b: nat, d: nat, e: nat)
    requires a < 16 && b < 16 && d < 16 && e < 16
    ensures var r := 256 * (a * 16 + b) + (d * 16 + e);
      r / 0x1000 == a && r / 0x100 % 16 == b && r / 0x10 % 16 == d && r % 16 == e
  {
    var r := 256 * (a * 16 + b) + (d * 16 + e);
    assert r / 16 == (a * 16 + b) * 16 + d;
    assert r / 0x100 == a * 16 + b;
  }

  /** UTF-8, RFC 3629 section 3. */
  function Utf8(cp: nat): (r: bytes)
    requires cp <= 0x10FFFF
    ensures 1 <= |r| <= 4
  {
    if cp < 0x80 then [cp]
    else if cp < 0x800 then [0xC0 + cp / 0x40, 0x80 + cp % 0x40]
    else if cp < 0x10000 then [0xE0 + cp / 0x1000, 0x80 + cp / 0x40 % 0x40, 0x80 + cp % 0x40]
    else [0xF0 + cp / 0x40000, 0x80 + cp / 0x1000 % 0x40, 0x80 + cp / 0x40 % 0x40, 0x80 + cp % 0x40]
  }

  /** The code point a surrogate pair stands for, RFC 2781 section 2.2. */
  function FromSurrogates(high: nat, low: nat): (cp: nat)
    requires 0xD800 <= high <= 0xDBFF && 0xDC00 <= low <= 0xDFFF
    ensures 0x10000 <= cp <= 0x10FFFF
  {
    0x10000 + high % 0x400 * 0x400 + low % 0x400
  }

  /** `utf16_literal_to_utf8`: code point and input bytes consumed (6 or 12). */
  function Utf16Literal(c: bytes, i: nat, e: nat): (r: Option<(nat, nat)>)
    requires i < e <= |c|
    ensures r.Some? ==> r.value.0 <= 0x10FFFF && (r.value.1 == 6 || r.value.1 == 12) && i + r.value.1 <= e
  {
    if e - i < 6 then None
    else
      var first := Hex4(c, i + 2);
      if 0xDC00 <= first <= 0xDFFF then None
      else if 0xD800 <= first <= 0xDBFF then
        if e - (i + 6) < 6 || c[i + 6] != BACKSLASH || c[i + 7] != 117 then None
        else
          var second := Hex4(c, i + 8);
          if second < 0xDC00 || second > 0xDFFF then None
          else Some((FromSurrogates(first, second), 12))
      else Some((first, 6))
  }

  /** What a one-letter escape stands for. */
  function ShortEscape(b: byte): Option<byte> {
    if b == 98 then Some(8)
    else if b == 102 then Some(12)
    else if b == 110 then Some(10)
    else if b == 114 then Some(13)
    else if b == 116 then Some(9)
    else if b == QUOTE || b == BACKSLASH || b == 47 then Some(b)
    else None
  }

  function Prepend(a: bytes, r: Parsed<bytes>): Parsed<bytes> {
    match r
    case Err(p) => Err(p)
    case Ok(s, n) => Ok(a + s, n)
  }

  /** Second pass of `parse_string`; it may run one byte past `e` when a \u swallowed a backslash. */
  function Unescape(c: bytes, i: nat, e: nat): (r: Parsed<bytes>)
    requires e < |c|
    ensures r.Err? ==> r.at <= |c|
    decreases |c| - i
  {
    if i >= e then Ok([], i)
    else if c[i] != BACKSLASH then Prepend([c[i]], Unescape(c, i + 1, e))
    else if c[i + 1] == 117 then
      match Utf16Literal(c, i, e)
      case None => Err(i)
      case Some((cp, n)) => Prepend(Utf8(cp), Unescape(c, i + n, e))
    else
      match ShortEscape(c[i + 1])
      case None => Err(i)
      case Some(b) => Prepend([b], Unescape(c, i + 2, e))
  }

  function ParseString(c: bytes, off: nat): (r: Parsed<bytes>)
    requires off < |c|
    ensures r.Ok? ==> off + 1 < r.next <= |c| && 0 !in r.value
    ensures r.Err? ==> r.at <= |c|
  {
    if c[off] != QUOTE then Err(off + 1)
    else
      match ClosingQuote(c, off + 1)
      case None => Err(off + 1)
      case Some(e) =>
        match Unescape(c, off + 1, e)
        case Err(p) => Err(p)
        case Ok(s, _) => Ok(CStr(s), e + 1)
  }

  // ---- values ----

  function ParseValue(c: bytes, off: nat, depth: nat): (r: Parsed<Json>)
    ensures r.Ok? ==> off < r.next <= |c|
    ensures off <= |c| && r.Err? ==> r.at <= |c|
    decreases |c| - off, 3
  {
    if At(c, off, NULL_TEXT) then Ok(Null, off + 4)
    else if At(c, off, FALSE_TEXT) then Ok(False, off + 5)
    else if At(c, off, TRUE_TEXT) then Ok(True, off + 4)
    else if off >= |c| then Err(off)
    else if c[off] == QUOTE then
      match ParseString(c, off)
      case Err(p) => Err(p)
      case Ok(s, n) => Ok(String(s), n)
    else if c[off] == MINUS || IsDigit(c[off]) then ParseNumber(c, off)
    else if c[off] == LBRACKET then ParseArray(c, off, depth)
    else if c[off] == LBRACE then ParseObject(c, off, depth)
    else Err(off)
  }

  function ParseArray(c: bytes, off: nat, depth: nat): (r: Parsed<Json>)
    requires off < |c|
    ensures r.Ok? ==> off < r.next <= |c|
    ensures r.Err? ==> r.at <= |c|
    decreases |c| - off, 2
  {
    if depth >= NESTING_LIMIT then Err(off)
    else
      var o := SkipBlank(c, off + 1);
      if o < |c| && c[o] == RBRACKET then Ok(Array([]), o + 1)
      else if o >= |c| then Err(o - 1)
      else
        match ParseItems(c, o - 1, depth + 1)
        case Err(p) => Err(p)
        case Ok(items, n) => Ok(Array(items), n)
  }

  /** Items from the one behind the byte at `off` up to the closing bracket. */
  function ParseItems(c: bytes, off: nat, depth: nat): (r: Parsed<seq<Json>>)
    requires off < |c|
    ensures r.Ok? ==> off < r.next <= |c| && |r.value| > 0
    ensures r.Err? ==> r.at <= |c|
    decreases |c| - off, 1
  {
    match ParseValue(c, SkipBlank(c, off + 1), depth)
    case Err(p) => Err(p)
    case Ok(v, n) =>
      var m := SkipBlank(c, n);
      if m < |c| && c[m] == COMMA then
        match ParseItems(c, m, depth)
        case Err(p) => Err(p)
        case Ok(rest, k) => Ok([v] + rest, k)
      else if m >= |c| || c[m] != RBRACKET then Err(m)
      else Ok([v], m + 1)
  }

  function ParseObject(c: bytes, off: nat, depth: nat): (r: Parsed<Json>)
    requires off < |c|
    ensures r.Ok? ==> off < r.next <= |c|
    ensures r.Err? ==> r.at <= |c|
    decreases |c| - off, 2
  {
    if depth >= NESTING_LIMIT then Err(off)
    else
      var o := SkipBlank(c, off + 1);
      if o < |c| && c[o] == RBRACE then Ok(Object([]), o + 1)
      else if o >= |c| then Err(o - 1)
      else
        match ParseMembers(c, o - 1, depth + 1)
        case Err(p) => Err(p)
        case Ok(members, n) => Ok(Object(members), n)
  }

  /** One `"key" : value`, starting at the whitespace before the key. */
  function ParseMember(c: bytes, off: nat, depth: nat): (r: Parsed<Member>)
    requires off < |c|
    ensures r.Ok? ==> off < r.next <= |c|
    ensures r.Err? ==> r.at <= |c|
    decreases |c| - off, 4
  {
    match ParseString(c, SkipBlank(c, off))
    case Err(p) => Err(p)
    case Ok(key, n) =>
      var m := SkipBlank(c, n);
      if m >= |c| || c[m] != COLON then Err(m)
      else
        match ParseValue(c, SkipBlank(c, m + 1), depth)
        case Err(p) => Err(p)
        case Ok(v, k) => Ok(Member(key, v), k)
  }

  function ParseMembers(c: bytes, off: nat, depth: nat): (r: Parsed<seq<Member>>)
    requires off < |c|
    ensures r.Ok? ==> off < r.next <= |c| && |r.value| > 0
    ensures r.Err? ==> r.at <= |c|
    decreases |c| - off, 1
  {
    if off + 1 >= |c| then Err(off)
    else
      match ParseMember(c, off + 1, depth)
      case Err(p) => Err(p)
      case Ok(m, n) =>
        var k := SkipBlank(c, n);
        if k < |c| && c[k] == COMMA then
          match ParseMembers(c, k, depth)
          case Err(p) => Err(p)
          case Ok(rest, z) => Ok([m] + rest, z)
        else if k >= |c| || c[k] != RBRACE then Err(k)
        else Ok([m], k + 1)
  }

  // ---- whole buffers ----

  const BOM: bytes := [0xEF, 0xBB, 0xBF]

  /** `skip_utf8_bom`, which wants at least five bytes in the buffer. */
  function AfterBom(c: bytes): nat {
    if 4 < |c| && At(c, 0, BOM) then 3 else 0
  }

  /** `cJSON_ParseWithLengthOpts`: `next` is where the caller is told parsing ended. */
  function ParseBuffer(c: bytes, requireNul: bool): Parsed<Json> {
    if |c| == 0 then Err(0)
    else
      match ParseValue(c, SkipBlank(c, AfterBom(c)), 0)
      case Err(p) => Err(p)
      case Ok(t, n) =>
        if !requireNul then Ok(t, n)
        else
          var o := SkipBlank(c, n);
          if o >= |c| || c[o] != 0 then Err(o) else Ok(t, o)
  }
}
