/** JSON trees and the text `cJSON_Print` and `cJSON_PrintUnformatted` give them. */
module JsonText {
  import opened Bytes

  const QUOTE: byte := 34
  const BACKSLASH: byte := 92
  const COMMA: byte := 44
  const COLON: byte := 58
  const LBRACKET: byte := 91
  const RBRACKET: byte := 93
  const LBRACE: byte := 123
  const RBRACE: byte := 125
  const TAB: byte := 9
  const SPACE: byte := 32
  const MINUS: byte := 45
  const SLASH: byte := 47
  const STAR: byte := 42

  const NULL_TEXT: bytes := [110, 117, 108, 108]
  const FALSE_TEXT: bytes := [102, 97, 108, 115, 101]
  const TRUE_TEXT: bytes := [116, 114, 117, 101]

  const NESTING_LIMIT: nat := 1000
  const INT_MAX: int := 2147483647
  const INT_MIN: int := -2147483648

  /** A tree of cJSON items; `valuedouble` is taken as an exact real. */
  datatype Json =
    | Null
    | False
    | True
    | Number(d: real)
    | String(s: bytes)
    | Array(items: seq<Json>)
    | Object(members: seq<Member>)

  datatype Member = Member(key: bytes, value: Json)

  /** The `valueint` that accompanies a `valuedouble`: truncation, with saturation. */
  function Saturate(d: real): int {
    if d >= INT_MAX as real then INT_MAX
    else if d <= INT_MIN as real then INT_MIN
    else if d >= 0.0 then d.Floor
    else -((-d).Floor)
  }

  /** Numbers printed with "%d". */
  predicate IsInt32(d: real) {
    d == Saturate(d) as real
  }

  // ---- what a tree must look like for its text to be modelled and parsed back ----

  predicate Plain(t: Json)
    decreases t, 1
  {
    match t
    case Number(d) => IsInt32(d)
    case String(s) => 0 !in s
    case Array(items) => PlainItems(items)
    case Object(members) => PlainMembers(members)
    case _ => true
  }

  predicate PlainItems(items: seq<Json>)
    decreases items, 0
  {
    items == [] || (Plain(items[0]) && PlainItems(items[1..]))
  }

  predicate PlainMembers(members: seq<Member>)
    decreases members, 0
  {
    members == [] || (0 !in members[0].key && Plain(members[0].value) && PlainMembers(members[1..]))
  }

  function Max(a: nat, b: nat): nat { if a < b then b else a }

  /** How many arrays and objects are nested. */
  function Nesting(t: Json): nat
    decreases t, 1
  {
    match t
    case Array(items) => 1 + NestingItems(items)
    case Object(members) => 1 + NestingMembers(members)
    case _ => 0
  }

  function NestingItems(items: seq<Json>): nat
    decreases items, 0
  {
    if items == [] then 0 else Max(Nesting(items[0]), NestingItems(items[1..]))
  }

  function NestingMembers(members: seq<Member>): nat
    decreases members, 0
  {
    if members == [] then 0 else Max(Nesting(members[0].value), NestingMembers(members[1..]))
  }

  // ---- numbers ----

  function NatText(n: nat): (s: bytes)
    ensures |s| > 0
    ensures forall i :: 0 <= i < |s| ==> 48 <= s[i] <= 57
  {
    if n < 10 then [48 + n] else NatText(n / 10) + [48 + n % 10]
  }

  function IntText(n: int): (s: bytes)
    ensures |s| > 0
    ensures forall i :: 0 <= i < |s| ==> 48 <= s[i] <= 57 || (i == 0 && s[i] == MINUS)
  {
    if n < 0 then [MINUS] + NatText(-n) else NatText(n)
  }

  // ---- strings ----

  function HexDigit(n: int): (b: byte)
    requires 0 <= n < 16
  {
    if n < 10 then 48 + n else 87 + n
  }

  function EscapeByte(b: byte): (r: bytes)
    ensures |r| > 0
  {
    if b == QUOTE || b == BACKSLASH then [BACKSLASH, b]
    else if b == 8 then [BACKSLASH, 98]
    else if b == 12 then [BACKSLASH, 102]
    else if b == 10 then [BACKSLASH, 110]
    else if b == 13 then [BACKSLASH, 114]
    else if b == 9 then [BACKSLASH, 116]
    else if b < 32 then [BACKSLASH, 117, 48, 48, HexDigit(b / 16), HexDigit(b % 16)]
    else [b]
  }

  function Escape(s: bytes): bytes {
    if s == [] then [] else EscapeByte(s[0]) + Escape(s[1..])
  }

  function Quoted(s: bytes): bytes {
    [QUOTE] + Escape(s) + [QUOTE]
  }

  // ---- trees ----

  function Tabs(n: nat): (s: bytes)
    ensures |s| == n
    ensures forall i :: 0 <= i < n ==> s[i] == TAB
  {
    seq(n, _ => TAB)
  }

  function ItemSep(fmt: bool): bytes { if fmt then [COMMA, SPACE] else [COMMA] }

  function ObjectOpen(fmt: bool): bytes { if fmt then [LBRACE, NEWLINE] else [LBRACE] }

  function ObjectClose(fmt: bool, depth: nat): bytes {
    (if fmt then Tabs(depth) else []) + [RBRACE]
  }

  function Indent(fmt: bool, depth: nat): bytes { if fmt then Tabs(depth) else [] }

  function KeySep(fmt: bool): bytes { if fmt then [COLON, TAB] else [COLON] }

  function MemberEnd(fmt: bool, more: bool): bytes {
    (if more then [COMMA] else []) + (if fmt then [NEWLINE] else [])
  }

  /** The text of `t` printed `depth` levels down; `depth` only matters when formatting. */
  function Text(t: Json, fmt: bool, depth: nat): (s: bytes)
    decreases t, 1
  {
    match t
    case Null => NULL_TEXT
    case False => FALSE_TEXT
    case True => TRUE_TEXT
    case Number(d) => IntText(Saturate(d))
    case String(s) => Quoted(s)
    case Array(items) => [LBRACKET] + ItemsText(items, fmt, depth + 1) + [RBRACKET]
    case Object(members) =>
      ObjectOpen(fmt) + MembersText(members, fmt, depth + 1) + ObjectClose(fmt, depth)
  }

  function ItemsText(items: seq<Json>, fmt: bool, depth: nat): bytes
    decreases items, 0
  {
    if items == [] then []
    else Text(items[0], fmt, depth) +
         (if |items| > 1 then ItemSep(fmt) + ItemsText(items[1..], fmt, depth) else [])
  }

  function MemberText(m: Member, fmt: bool, depth: nat, more: bool): bytes
    decreases m, 2
  {
    Indent(fmt, depth) + Quoted(m.key) + KeySep(fmt) + Text(m.value, fmt, depth) + MemberEnd(fmt, more)
  }

  function MembersText(members: seq<Member>, fmt: bool, depth: nat): bytes
    decreases members, 0
  {
    if members == [] then []
    else MemberText(members[0], fmt, depth, |members| > 1) + MembersText(members[1..], fmt, depth)
  }

  // ---- what every printed text looks like ----

  lemma NoItems(fmt: bool, depth: nat)
    ensures ItemsText([], fmt, depth) == [] && NestingItems([]) == 0
    ensures MembersText([], fmt, depth) == [] && NestingMembers([]) == 0
  {
  }

  /** No printed byte is NUL, so `strlen` finds the end of what was just written. */
  lemma {:induction false} EscapeNulFree(s: bytes)
    ensures 0 !in Escape(s)
  {
    if s != [] { EscapeNulFree(s[1..]); }
  }

  lemma {:induction false} TextNulFree(t: Json, fmt: bool, depth: nat)
    ensures 0 !in Text(t, fmt, depth)
    decreases t, 1
  {
    hide Escape, ItemsText, MembersText;
    match t
    case String(s) => EscapeNulFree(s);
    case Array(items) => ItemsNulFree(items, fmt, depth + 1);
    case Object(members) => MembersNulFree(members, fmt, depth + 1);
    case _ =>
  }

  lemma {:induction false} ItemsNulFree(items: seq<Json>, fmt: bool, depth: nat)
    ensures 0 !in ItemsText(items, fmt, depth)
    decreases items, 0
  {
    hide Text;
    if items != [] {
      TextNulFree(items[0], fmt, depth);
      ItemsNulFree(items[1..], fmt, depth);
    }
  }

  lemma {:induction false} MemberNulFree(m: Member, fmt: bool, depth: nat, more: bool)
    ensures 0 !in MemberText(m, fmt, depth, more)
    decreases m, 2
  {
    hide Escape, Text;
    EscapeNulFree(m.key);
    TextNulFree(m.value, fmt, depth);
  }

  lemma {:induction false} MembersNulFree(members: seq<Member>, fmt: bool, depth: nat)
    ensures 0 !in MembersText(members, fmt, depth)
    decreases members, 0
  {
    hide MemberText;
    if members != [] {
      MemberNulFree(members[0], fmt, depth, |members| > 1);
      MembersNulFree(members[1..], fmt, depth);
    }
  }

  /** A text starts with a visible byte that closes nothing. */
  lemma TextStarts(t: Json, fmt: bool, depth: nat)
    ensures var s := Text(t, fmt, depth);
      |s| > 0 && s[0] > 32 && s[0] != RBRACKET && s[0] != RBRACE && s[0] != COMMA && s[0] != 0xEF
  {
  }
}
