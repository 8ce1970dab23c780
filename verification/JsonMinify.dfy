/** `cJSON_Minify`, in place, and what it makes of formatted text. */
module JsonMinify {
  import opened Bytes
  import opened JsonText
  import opened JsonGrammar
  import opened JsonStrings
  import opened JsonRoundTrip

  predicate IsBlank(c: byte) { c == SPACE || c == TAB || c == 13 || c == NEWLINE }

  // ---- what the scanner copies ----

  /** `skip_oneline_comment`, behind the two slashes: what is left after the newline. */
  function AfterLine(s: bytes): (r: bytes)
    ensures |r| <= |s|
  {
    if s == [] then [] else if s[0] == NEWLINE then s[1..] else AfterLine(s[1..])
  }

  /** `skip_multiline_comment`, behind the opening: what is left after the closing. */
  function AfterBlock(s: bytes): (r: bytes)
    ensures |r| <= |s|
  {
    if s == [] then []
    else if s[0] == STAR && |s| > 1 && s[1] == SLASH then s[2..]
    else AfterBlock(s[1..])
  }

  /** The scanner outside strings, on text without a NUL. */
  function Outside(s: bytes): bytes
    decreases |s|
  {
    if s == [] then []
    else if IsBlank(s[0]) then Outside(s[1..])
    else if s[0] == SLASH then
      if |s| > 1 && s[1] == SLASH then Outside(AfterLine(s[2..]))
      else if |s| > 1 && s[1] == STAR then Outside(AfterBlock(s[2..]))
      else Outside(s[1..])
    else if s[0] == QUOTE then [QUOTE] + Inside(s[1..])
    else [s[0]] + Outside(s[1..])
  }

  /** `minify_string` behind the opening quote: a backslash in front of a quote always escapes it. */
  function Inside(s: bytes): bytes
    decreases |s|
  {
    if s == [] then []
    else if s[0] == QUOTE then [QUOTE] + Outside(s[1..])
    else if s[0] == BACKSLASH && |s| > 1 && s[1] == QUOTE then [BACKSLASH, QUOTE] + Inside(s[2..])
    else [s[0]] + Inside(s[1..])
  }

  // ---- which trees survive ----

  datatype Class = Clean | Open | Broken

  predicate EndsInBackslash(s: bytes) { s != [] && s[|s| - 1] == BACKSLASH }

  /**
   * Clean: no key and no string ends in a backslash. Open: the only one that does is a string with
   * nothing but closing brackets behind it. Broken: all the rest.
   */
  function Classify(t: Json): Class
    decreases t, 1
  {
    match t
    case String(s) => if EndsInBackslash(s) then Open else Clean
    case Array(items) => ClassifyItems(items)
    case Object(members) => ClassifyMembers(members)
    case _ => Clean
  }

  function ClassifyItems(items: seq<Json>): Class
    decreases items, 0
  {
    if items == [] then Clean
    else if |items| == 1 then Classify(items[0])
    else if Classify(items[0]) == Clean then ClassifyItems(items[1..])
    else Broken
  }

  function ClassifyMembers(members: seq<Member>): Class
    decreases members, 0
  {
    if members == [] then Clean
    else if EndsInBackslash(members[0].key) || Classify(members[0].value) != Clean then Broken
    else ClassifyMembers(members[1..])
  }

  // ---- one step at a time ----

  lemma BlankSkipped(w: bytes, rest: bytes)
    requires forall i :: 0 <= i < |w| ==> IsBlank(w[i])
    ensures Outside(w + rest) == Outside(rest)
    decreases |w|
  {
    if w == [] {
      assert w + rest == rest;
    } else {
      assert (w + rest)[1..] == w[1..] + rest;
      BlankSkipped(w[1..], rest);
    }
  }

  predicate IsInert(c: byte) { !IsBlank(c) && c != SLASH && c != QUOTE }

  lemma InertCopied(w: bytes, rest: bytes)
    requires forall i :: 0 <= i < |w| ==> IsInert(w[i])
    ensures Outside(w + rest) == w + Outside(rest)
    decreases |w|
  {
    if w == [] {
      assert w + rest == rest;
    } else {
      assert (w + rest)[1..] == w[1..] + rest;
      InertCopied(w[1..], rest);
      assert w == [w[0]] + w[1..];
    }
  }

  lemma InsideCopied(w: bytes, rest: bytes)
    requires forall i :: 0 <= i < |w| ==> w[i] != QUOTE && w[i] != BACKSLASH
    ensures Inside(w + rest) == w + Inside(rest)
    decreases |w|
  {
    if w == [] {
      assert w + rest == rest;
    } else {
      assert (w + rest)[1..] == w[1..] + rest;
      InsideCopied(w[1..], rest);
      assert w == [w[0]] + w[1..];
    }
  }

  /** Where the scanner is behind a string: outside, or still inside if it took the closing quote for an escaped one. */
  function Behind(open: bool, rest: bytes): bytes {
    if open then Inside(rest) else Outside(rest)
  }

  predicate EndsOpen(ps: seq<Piece>) { ps != [] && ps[|ps| - 1] == Short(BACKSLASH) }

  /** A piece of a string is copied as it stands, unless it is an escaped backslash in front of the closing quote. */
  lemma PieceCopied(p: Piece, rest: bytes)
    requires Valid(p) && (p == Short(BACKSLASH) ==> rest == [] || rest[0] != QUOTE)
    ensures Inside(Source(p) + rest) == Source(p) + Inside(rest)
  {
    hide Inside, HexValue, HexNumber;
    var x := Source(p);
    match p
    case Literal(b) => InsideCopied([b], rest);
    case Short(l) => ShortCopied(l, rest);
    case Unit(d) => UnitCopied(d, rest);
    case Pair(h, l) =>
      UnitCopied(h, [BACKSLASH, 117] + l + rest);
      UnitCopied(l, rest);
      var u, v := [BACKSLASH, 117] + h, [BACKSLASH, 117] + l;
      assert x + rest == u + (v + rest) && x + Inside(rest) == u + (v + Inside(rest));
  }

  lemma ShortCopied(l: byte, rest: bytes)
    requires l == BACKSLASH ==> rest == [] || rest[0] != QUOTE
    ensures Inside([BACKSLASH, l] + rest) == [BACKSLASH, l] + Inside(rest)
  {
    hide Inside;
    if l == QUOTE {
      EscapedQuoteCopied(rest);
    } else {
      assert [BACKSLASH, l] + rest == [BACKSLASH] + ([l] + rest);
      BackslashCopied([l] + rest);
      if l == BACKSLASH { BackslashCopied(rest); } else { InsideCopied([l], rest); }
      assert [BACKSLASH] + ([l] + Inside(rest)) == [BACKSLASH, l] + Inside(rest);
    }
  }

  lemma UnitCopied(d: bytes, rest: bytes)
    requires IsHex(d)
    ensures Inside([BACKSLASH, 117] + d + rest) == [BACKSLASH, 117] + d + Inside(rest)
  {
    hide Inside;
    var z := [117] + d;
    forall i | 0 <= i < |z| ensures z[i] != QUOTE && z[i] != BACKSLASH { if i > 0 { assert z[i] == d[i - 1]; } }
    assert [BACKSLASH, 117] + d + rest == [BACKSLASH] + (z + rest);
    BackslashCopied(z + rest);
    InsideCopied(z, rest);
    assert [BACKSLASH] + (z + Inside(rest)) == [BACKSLASH, 117] + d + Inside(rest);
  }

  /** A backslash that is not in front of a quote is copied like any other byte. */
  lemma BackslashCopied(rest: bytes)
    requires rest == [] || rest[0] != QUOTE
    ensures Inside([BACKSLASH] + rest) == [BACKSLASH] + Inside(rest)
  {
    assert ([BACKSLASH] + rest)[1..] == rest;
  }

  lemma EscapedQuoteCopied(rest: bytes)
    ensures Inside([BACKSLASH, QUOTE] + rest) == [BACKSLASH, QUOTE] + Inside(rest)
  {
    assert ([BACKSLASH, QUOTE] + rest)[2..] == rest;
  }

  lemma ClosingQuoteCopied(rest: bytes)
    ensures Inside([QUOTE] + rest) == [QUOTE] + Outside(rest)
  {
    assert ([QUOTE] + rest)[1..] == rest;
  }

  /** A whole string behind its opening quote. */
  lemma {:induction false} BodyCopied(ps: seq<Piece>, rest: bytes)
    requires AllValid(ps)
    ensures Inside(Sources(ps) + ([QUOTE] + rest)) == Sources(ps) + ([QUOTE] + Behind(EndsOpen(ps), rest))
    decreases |ps|
  {
    hide Inside, Outside, Source, Valid;
    if ps == [] {
      assert Sources(ps) + ([QUOTE] + rest) == [QUOTE] + rest;
      ClosingQuoteCopied(rest);
      assert Sources(ps) + ([QUOTE] + Outside(rest)) == [QUOTE] + Outside(rest);
    } else if ps == [Short(BACKSLASH)] {
      LastBackslash(ps, rest);
    } else {
      var e, tail := Source(ps[0]), Sources(ps[1..]) + ([QUOTE] + rest);
      assert Sources(ps) + ([QUOTE] + rest) == e + tail;
      if ps[0] == Short(BACKSLASH) { PieceStarts(ps[1..], [QUOTE] + rest); }
      PieceCopied(ps[0], tail);
      BodyCopied(ps[1..], rest);
      assert EndsOpen(ps) == EndsOpen(ps[1..]);
      var z := [QUOTE] + Behind(EndsOpen(ps), rest);
      assert e + (Sources(ps[1..]) + z) == e + Sources(ps[1..]) + z;
    }
  }

  /** The closing quote is swallowed together with the second half of an escaped backslash. */
  lemma LastBackslash(ps: seq<Piece>, rest: bytes)
    requires ps == [Short(BACKSLASH)]
    ensures Inside(Sources(ps) + ([QUOTE] + rest)) == Sources(ps) + ([QUOTE] + Inside(rest))
  {
    hide Inside;
    assert Sources(ps) == [BACKSLASH, BACKSLASH] + Sources(ps[1..]) == [BACKSLASH, BACKSLASH];
    assert Sources(ps) + ([QUOTE] + rest) == [BACKSLASH] + ([BACKSLASH, QUOTE] + rest);
    BackslashCopied([BACKSLASH, QUOTE] + rest);
    EscapedQuoteCopied(rest);
    assert [BACKSLASH] + ([BACKSLASH, QUOTE] + Inside(rest)) == Sources(ps) + ([QUOTE] + Inside(rest));
  }

  lemma PieceStarts(ps: seq<Piece>, rest: bytes)
    requires AllValid(ps) && ps != []
    ensures (Sources(ps) + rest) != [] && (Sources(ps) + rest)[0] != QUOTE
  {
    assert Sources(ps)[0] == Source(ps[0])[0];
  }

  lemma QuotedCopied(s: bytes, rest: bytes)
    ensures Outside(Quoted(s) + rest) == Quoted(s) + Behind(EndsInBackslash(s), rest)
  {
    hide Escape, Inside, Sources, Pieces;
    var w := Escape(s) + ([QUOTE] + rest);
    assert Quoted(s) + rest == [QUOTE] + w;
    assert ([QUOTE] + w)[1..] == w;
    PiecesOfBytes(s);
    BodyCopied(Pieces(s), rest);
    OpenPieces(s);
    assert [QUOTE] + (Escape(s) + ([QUOTE] + Behind(EndsInBackslash(s), rest))) ==
           Quoted(s) + Behind(EndsInBackslash(s), rest);
  }

  lemma {:induction false} OpenPieces(s: bytes)
    ensures EndsOpen(Pieces(s)) <==> EndsInBackslash(s)
  {
    if |s| > 1 { OpenPieces(s[1..]); }
  }

  // ---- trees that survive ----

  /** Two texts that differ at a byte both have. */
  ghost predicate Diverge(x: bytes, y: bytes) {
    exists k :: 0 <= k < |x| && k < |y| && x[k] != y[k]
  }

  /** `x` is what the class promises: the plain text and the scanner's state behind it, or something else. */
  ghost predicate Gives(k: Class, x: bytes, plain: bytes, rest: bytes) {
    match k
    case Clean => x == plain + Outside(rest)
    case Open => x == plain + Inside(rest)
    case Broken => Diverge(x, plain)
  }

  /** What minifying the formatted text of a tree, followed by anything, gives. */
  ghost predicate Minified(k: Class, formatted: bytes, plain: bytes, rest: bytes) {
    Gives(k, Outside(formatted + rest), plain, rest)
  }

  lemma {:induction false} MinifyTree(t: Json, depth: nat, rest: bytes)
    ensures Minified(Classify(t), Text(t, true, depth), Text(t, false, depth), rest)
    decreases t, 1
  {
    match t
    case String(s) => QuotedCopied(s, rest);
    case Array(items) => MinifyArray(items, depth, rest);
    case Object(members) => MinifyObject(members, depth, rest);
    case _ => InertCopied(Text(t, true, depth), rest);
  }

  lemma {:induction false} MinifyArray(items: seq<Json>, depth: nat, rest: bytes)
    ensures Minified(ClassifyItems(items), Text(Array(items), true, depth), Text(Array(items), false, depth), rest)
    decreases items, 1
  {
    hide ItemsText, ClassifyItems, Outside, Inside;
    var f, p := ItemsText(items, true, depth + 1), ItemsText(items, false, depth + 1);
    var k := ClassifyItems(items);
    assert Text(Array(items), true, depth) + rest == [LBRACKET] + (f + ([RBRACKET] + rest));
    InertCopied([LBRACKET], f + ([RBRACKET] + rest));
    MinifyItems(items, depth + 1, [RBRACKET] + rest);
    if k == Clean {
      InertCopied([RBRACKET], rest);
      assert [LBRACKET] + (p + ([RBRACKET] + Outside(rest))) == [LBRACKET] + p + [RBRACKET] + Outside(rest);
    } else if k == Open {
      InsideCopied([RBRACKET], rest);
      assert [LBRACKET] + (p + ([RBRACKET] + Inside(rest))) == [LBRACKET] + p + [RBRACKET] + Inside(rest);
    } else {
      DivergeBehind([LBRACKET], Outside(f + ([RBRACKET] + rest)), p, [RBRACKET]);
    }
  }

  lemma DivergeBehind(before: bytes, x: bytes, y: bytes, z: bytes)
    requires Diverge(x, y)
    ensures Diverge(before + x, before + y + z)
  {
    var k :| 0 <= k < |x| && k < |y| && x[k] != y[k];
    assert (before + x)[|before| + k] == x[k] && (before + y + z)[|before| + k] == y[k];
  }

  lemma {:induction false} MinifyItems(items: seq<Json>, depth: nat, rest: bytes)
    ensures Minified(ClassifyItems(items), ItemsText(items, true, depth), ItemsText(items, false, depth), rest)
    decreases items, 0
  {
    if items == [] {
      assert ItemsText(items, true, depth) + rest == rest;
    } else if |items| == 1 {
      MinifyTree(items[0], depth, rest);
      assert ItemsText(items, true, depth) == Text(items[0], true, depth) + [] == Text(items[0], true, depth);
      assert ItemsText(items, false, depth) == Text(items[0], false, depth) + [] == Text(items[0], false, depth);
    } else {
      MinifyFirst(items, depth, rest);
    }
  }

  lemma {:induction false} MinifyFirst(items: seq<Json>, depth: nat, rest: bytes)
    requires |items| > 1
    ensures Minified(ClassifyItems(items), ItemsText(items, true, depth), ItemsText(items, false, depth), rest)
    decreases items, 0, 0
  {
    hide Text, Outside, Inside, Classify;
    var f, p := Text(items[0], true, depth), Text(items[0], false, depth);
    var fs, ps := ItemsText(items[1..], true, depth), ItemsText(items[1..], false, depth);
    var k := Classify(items[0]);
    assert ItemsText(items, true, depth) + rest == f + ([COMMA] + ([SPACE] + (fs + rest)));
    assert ItemsText(items, false, depth) == p + ([COMMA] + ps);
    MinifyTree(items[0], depth, [COMMA] + ([SPACE] + (fs + rest)));
    if k == Clean {
      InertCopied([COMMA], [SPACE] + (fs + rest));
      BlankSkipped([SPACE], fs + rest);
      MinifyItems(items[1..], depth, rest);
      Regroup(ClassifyItems(items[1..]), p, [COMMA], ps, fs, rest);
    } else if k == Open {
      InsideCopied([COMMA, SPACE], fs + rest);
      assert [COMMA] + ([SPACE] + (fs + rest)) == [COMMA, SPACE] + (fs + rest);
      TextStarts(items[1], false, depth);
      assert ps[0] == Text(items[1], false, depth)[0];
      SecondByteDiffers(p, [COMMA, SPACE], Inside(fs + rest), [COMMA] + ps);
    } else {
      DivergeBehind([], Outside(f + ([COMMA] + ([SPACE] + (fs + rest)))), p, [COMMA] + ps);
      assert [] + Outside(f + ([COMMA] + ([SPACE] + (fs + rest)))) == Outside(f + ([COMMA] + ([SPACE] + (fs + rest))));
      assert [] + p + ([COMMA] + ps) == p + ([COMMA] + ps);
    }
  }

  lemma SecondByteDiffers(p: bytes, w: bytes, x: bytes, y: bytes)
    requires |w| == 2 && |y| >= 2 && w[1] != y[1]
    ensures Diverge(p + (w + x), p + y)
  {
    assert (p + (w + x))[|p| + 1] == w[1] && (p + y)[|p| + 1] == y[1];
  }

  /** What follows a clean piece decides. */
  lemma Regroup(k: Class, p: bytes, sep: bytes, ps: bytes, fs: bytes, rest: bytes)
    requires Minified(k, fs, ps, rest)
    ensures Gives(k, p + (sep + Outside(fs + rest)), p + (sep + ps), rest)
  {
    hide Outside, Inside;
    match k
    case Clean => assert p + (sep + (ps + Outside(rest))) == p + (sep + ps) + Outside(rest);
    case Open => assert p + (sep + (ps + Inside(rest))) == p + (sep + ps) + Inside(rest);
    case Broken =>
      DivergeBehind(p + sep, Outside(fs + rest), ps, []);
      assert p + (sep + Outside(fs + rest)) == p + sep + Outside(fs + rest);
      assert p + (sep + ps) == p + sep + ps + [];
  }

  lemma {:induction false} MinifyObject(members: seq<Member>, depth: nat, rest: bytes)
    ensures Minified(ClassifyMembers(members), Text(Object(members), true, depth),
      Text(Object(members), false, depth), rest)
    decreases members, 1
  {
    hide MembersText, ClassifyMembers, Outside, Inside, ObjectClose;
    var f, p := MembersText(members, true, depth + 1) + ObjectClose(true, depth),
      MembersText(members, false, depth + 1) + [RBRACE];
    PlainClose(depth);
    assert Text(Object(members), true, depth) + rest == [LBRACE] + ([NEWLINE] + (f + rest));
    assert Text(Object(members), false, depth) == [] + ([LBRACE] + p);
    InertCopied([LBRACE], [NEWLINE] + (f + rest));
    BlankSkipped([NEWLINE], f + rest);
    MinifyMembers(members, depth + 1, rest);
    Regroup(ClassifyMembers(members), [], [LBRACE], p, f, rest);
    assert [] + ([LBRACE] + Outside(f + rest)) == [LBRACE] + Outside(f + rest);
  }

  lemma PlainClose(depth: nat)
    ensures ObjectClose(false, depth) == [RBRACE]
  {
  }

  /** Members and the closing brace. */
  lemma {:induction false} MinifyMembers(members: seq<Member>, depth: nat, rest: bytes)
    requires depth > 0
    ensures Minified(ClassifyMembers(members), MembersText(members, true, depth) + ObjectClose(true, depth - 1),
                     MembersText(members, false, depth) + [RBRACE], rest)
    ensures ClassifyMembers(members) != Open
    decreases members, 0
  {
    if members == [] {
      assert MembersText(members, true, depth) + ObjectClose(true, depth - 1) + rest ==
             Tabs(depth - 1) + ([RBRACE] + rest);
      BlankSkipped(Tabs(depth - 1), [RBRACE] + rest);
      InertCopied([RBRACE], rest);
      assert MembersText(members, false, depth) + [RBRACE] == [RBRACE];
    } else {
      MinifyMember(members, depth, rest);
    }
  }

  /** The first member, up to its value. */
  lemma {:induction false} MinifyMember(members: seq<Member>, depth: nat, rest: bytes)
    requires depth > 0 && members != []
    ensures Minified(ClassifyMembers(members), MembersText(members, true, depth) + ObjectClose(true, depth - 1),
                     MembersText(members, false, depth) + [RBRACE], rest)
    ensures ClassifyMembers(members) != Open
    decreases members, 0, 2
  {
    hide Text, Outside, Inside, Classify, ClassifyMembers, Quoted, ObjectClose, MembersText, Diverge;
    var m := members[0];
    var q, v := Quoted(m.key), Text(m.value, true, depth);
    var y := Text(m.value, false, depth) + PlainRest(members, depth);
    var x := v + FormattedRest(members, depth, rest);
    FormattedMember(members, depth, rest);
    PlainMember(members, depth);
    ClassOfFirst(members);
    var tail := [COLON] + ([TAB] + x);
    BlankSkipped(Tabs(depth), q + tail);
    QuotedCopied(m.key, tail);
    if EndsInBackslash(m.key) {
      InsideCopied([COLON, TAB], x);
      assert tail == [COLON, TAB] + x;
      TextStarts(m.value, false, depth);
      assert y[0] == Text(m.value, false, depth)[0];
      SecondByteDiffers(q, [COLON, TAB], Inside(x), [COLON] + y);
    } else {
      InertCopied([COLON], [TAB] + x);
      BlankSkipped([TAB], x);
      MinifyMemberValue(members, depth, rest);
      Regroup2(ClassifyMembers(members), q, [COLON], y, x, rest);
    }
  }

  lemma Regroup2(k: Class, q: bytes, sep: bytes, y: bytes, x: bytes, rest: bytes)
    requires Gives(k, Outside(x), y, rest)
    ensures Gives(k, q + (sep + Outside(x)), q + (sep + y), rest)
  {
    hide Outside, Inside;
    match k
    case Clean => assert q + (sep + (y + Outside(rest))) == q + (sep + y) + Outside(rest);
    case Open => assert q + (sep + (y + Inside(rest))) == q + (sep + y) + Inside(rest);
    case Broken =>
      DivergeBehind(q + sep, Outside(x), y, []);
      assert q + (sep + Outside(x)) == q + sep + Outside(x);
      assert q + (sep + y) == q + sep + y + [];
  }

  /** What stands behind the value of the first member, in either layout. */
  ghost function FormattedRest(members: seq<Member>, depth: nat, rest: bytes): bytes
    requires depth > 0 && members != []
  {
    MemberEnd(true, |members| > 1) + (MembersText(members[1..], true, depth) + ObjectClose(true, depth - 1) + rest)
  }

  ghost function PlainRest(members: seq<Member>, depth: nat): bytes
    requires members != []
  {
    MemberEnd(false, |members| > 1) + (MembersText(members[1..], false, depth) + [RBRACE])
  }

  lemma FormattedMember(members: seq<Member>, depth: nat, rest: bytes)
    requires depth > 0 && members != []
    ensures MembersText(members, true, depth) + ObjectClose(true, depth - 1) + rest ==
      Tabs(depth) + (Quoted(members[0].key) +
        ([COLON] + ([TAB] + (Text(members[0].value, true, depth) + FormattedRest(members, depth, rest)))))
  {
    hide Text, Quoted, ObjectClose, MemberEnd;
    var m := members[0];
    var w, q, v, e := Tabs(depth), Quoted(m.key), Text(m.value, true, depth), MemberEnd(true, |members| > 1);
    var z := MembersText(members[1..], true, depth);
    assert MembersText(members, true, depth) == w + q + [COLON, TAB] + v + e + z;
    RightNest(w, q, v, e, z, ObjectClose(true, depth - 1), rest);
  }

  lemma RightNest(w: bytes, q: bytes, v: bytes, e: bytes, z: bytes, c: bytes, rest: bytes)
    ensures w + q + [COLON, TAB] + v + e + z + c + rest == w + (q + ([COLON] + ([TAB] + (v + (e + (z + c + rest))))))
  {
    assert w + q + [COLON, TAB] + v + e + z + c + rest == w + q + [COLON, TAB] + v + e + (z + c + rest);
    var a := z + c + rest;
    assert w + q + [COLON, TAB] + v + e + a == w + q + [COLON, TAB] + v + (e + a);
    assert w + q + [COLON, TAB] + v + (e + a) == w + q + [COLON, TAB] + (v + (e + a));
    assert w + q + [COLON, TAB] + (v + (e + a)) == w + q + ([COLON] + ([TAB] + (v + (e + a))));
    assert w + q + ([COLON] + ([TAB] + (v + (e + a)))) == w + (q + ([COLON] + ([TAB] + (v + (e + a)))));
  }

  lemma PlainMember(members: seq<Member>, depth: nat)
    requires members != []
    ensures MembersText(members, false, depth) + [RBRACE] ==
      Quoted(members[0].key) + ([COLON] + (Text(members[0].value, false, depth) + PlainRest(members, depth)))
  {
    hide Text, Quoted, MemberEnd;
    var m := members[0];
    var q, v, e := Quoted(m.key), Text(m.value, false, depth), MemberEnd(false, |members| > 1);
    var z := MembersText(members[1..], false, depth);
    assert [] + q == q;
    assert MembersText(members, false, depth) == q + [COLON] + v + e + z;
    RightNestPlain(q, v, e, z);
  }

  lemma RightNestPlain(q: bytes, v: bytes, e: bytes, z: bytes)
    ensures q + [COLON] + v + e + z + [RBRACE] == q + ([COLON] + (v + (e + (z + [RBRACE]))))
  {
    assert q + [COLON] + v + e + z + [RBRACE] == q + [COLON] + v + e + (z + [RBRACE]);
    assert q + [COLON] + v + e + (z + [RBRACE]) == q + [COLON] + v + (e + (z + [RBRACE]));
    assert q + [COLON] + v + (e + (z + [RBRACE])) == q + [COLON] + (v + (e + (z + [RBRACE])));
    assert q + [COLON] + (v + (e + (z + [RBRACE]))) == q + ([COLON] + (v + (e + (z + [RBRACE]))));
  }

  lemma ClassOfFirst(members: seq<Member>)
    requires members != []
    ensures EndsInBackslash(members[0].key) || Classify(members[0].value) != Clean ==>
      ClassifyMembers(members) == Broken
    ensures !EndsInBackslash(members[0].key) && Classify(members[0].value) == Clean ==>
              ClassifyMembers(members) == ClassifyMembers(members[1..])
  {
  }

  /** The value of the first member and everything behind it. */
  lemma {:induction false} MinifyMemberValue(members: seq<Member>, depth: nat, rest: bytes)
    requires depth > 0 && members != [] && !EndsInBackslash(members[0].key)
    ensures Gives(ClassifyMembers(members),
      Outside(Text(members[0].value, true, depth) + FormattedRest(members, depth, rest)),
                  Text(members[0].value, false, depth) + PlainRest(members, depth), rest)
    ensures ClassifyMembers(members) != Open
    decreases members, 0, 1
  {
    hide Text, Outside, Inside, Classify, ClassifyMembers, Quoted, ObjectClose, MembersText;
    var k := Classify(members[0].value);
    var v, p := Text(members[0].value, true, depth), Text(members[0].value, false, depth);
    var f := MembersText(members[1..], true, depth) + ObjectClose(true, depth - 1);
    var z := MembersText(members[1..], false, depth) + [RBRACE];
    var more := |members| > 1;
    MinifyTree(members[0].value, depth, FormattedRest(members, depth, rest));
    ClassOfFirst(members);
    if k == Clean {
      EndOfMember(more, f + rest);
      MinifyMembers(members[1..], depth, rest);
      Regroup2(ClassifyMembers(members), p, MemberEnd(false, more), z, f + rest, rest);
    } else if k == Open {
      OpenMember(members, depth, p, rest);
    } else {
      DivergeBehind([], Outside(v + FormattedRest(members, depth, rest)), p, PlainRest(members, depth));
      assert [] + Outside(v + FormattedRest(members, depth, rest)) == Outside(v + FormattedRest(members, depth, rest));
      assert [] + p + PlainRest(members, depth) == p + PlainRest(members, depth);
    }
  }

  lemma EndOfMember(more: bool, w: bytes)
    ensures Outside(MemberEnd(true, more) + w) == MemberEnd(false, more) + Outside(w)
  {
    hide Outside;
    BlankSkipped([NEWLINE], w);
    if more {
      assert MemberEnd(true, more) + w == [COMMA] + ([NEWLINE] + w);
      InertCopied([COMMA], [NEWLINE] + w);
    } else {
      assert MemberEnd(true, more) == [NEWLINE];
      assert MemberEnd(false, more) + Outside(w) == Outside(w);
    }
  }

  /** Still inside a string behind a member's value, the scanner keeps the newline. */
  lemma OpenMember(members: seq<Member>, depth: nat, p: bytes, rest: bytes)
    requires depth > 0 && members != []
    ensures Diverge(p + Inside(FormattedRest(members, depth, rest)), p + PlainRest(members, depth))
  {
    hide Text, Quoted, ObjectClose, Inside, MembersText;
    var w := MembersText(members[1..], true, depth) + ObjectClose(true, depth - 1) + rest;
    var z := MembersText(members[1..], false, depth) + [RBRACE];
    if |members| > 1 {
      assert FormattedRest(members, depth, rest) == [COMMA, NEWLINE] + w;
      assert PlainRest(members, depth) == [COMMA] + z;
      InsideCopied([COMMA, NEWLINE], w);
      PlainMember(members[1..], depth);
      FirstOfQuoted(members[1].key);
      assert z[0] == QUOTE;
      SecondByteDiffers(p, [COMMA, NEWLINE], Inside(w), [COMMA] + z);
    } else {
      assert FormattedRest(members, depth, rest) == [NEWLINE] + w;
      InsideCopied([NEWLINE], w);
      assert members[1..] == [];
      NoMembers(depth);
      assert PlainRest(members, depth) == [RBRACE];
      assert (p + ([NEWLINE] + Inside(w)))[|p|] == NEWLINE && (p + [RBRACE])[|p|] == RBRACE;
    }
  }

  lemma NoMembers(depth: nat)
    ensures MembersText([], false, depth) == []
  {
  }

  lemma FirstOfQuoted(s: bytes)
    ensures |Quoted(s)| > 0 && Quoted(s)[0] == QUOTE
  {
  }

  /**
   * Minifying formatted text gives the unformatted text exactly when no key ends in a backslash and
   * no string does either, except one with nothing but closing brackets behind it.
   */
  lemma MinifyIsUnformatted(t: Json)
    ensures Outside(Text(t, true, 0)) == Text(t, false, 0) <==> Classify(t) != Broken
  {
    hide Text, Classify;
    var f, p := Text(t, true, 0), Text(t, false, 0);
    MinifyTree(t, 0, []);
    assert f + [] == f;
    assert p + Outside([]) == p && p + Inside([]) == p;
  }

  /** The smallest failing case: a string ending in a backslash in front of another item. */
  lemma MinifyCanBreak()
    ensures var t := Array([String([BACKSLASH]), Null]); Outside(Text(t, true, 0)) != Text(t, false, 0)
  {
    var t := Array([String([BACKSLASH]), Null]);
    assert EndsInBackslash([BACKSLASH]) && Classify(t.items[0]) == Open;
    assert ClassifyItems(t.items) == Broken;
    MinifyIsUnformatted(t);
  }

  // ---- the scanner itself, reading and writing one array ----

  /** `text` still stands from `read` on, with its NUL behind it, and `into` has not overtaken `read`. */
  ghost predicate Scanning(json: seq<byte>, text: bytes, read: nat, into: nat) {
    && into <= read <= |text| < |json|
    && json[read..|text|] == text[read..] && json[|text|] == 0 && 0 !in text
  }

  lemma ScanningAt(json: seq<byte>, text: bytes, read: nat, into: nat)
    requires Scanning(json, text, read, into)
    ensures json[read] == 0 <==> read == |text|
    ensures read < |text| ==> json[read] == text[read] == text[read..][0] && text[read..][1..] == text[read + 1..]
    ensures read < |text| ==> read + 1 < |json| && json[read + 1] == (if read + 1 < |text| then text[read + 1] else 0)
    ensures read + 1 < |text| ==> text[read..][1] == text[read + 1] && text[read..][2..] == text[read + 2..]
  {
    if read < |text| {
      assert json[read..|text|][0] == text[read..][0];
      assert text[read] in text;
      if read + 1 < |text| { assert json[read..|text|][1] == text[read..][1]; }
    }
  }

  /** Storing at or before `read` and moving on keeps the rest of the text. */
  lemma ScanningMoves(json: seq<byte>, text: bytes, read: nat, into: nat, json': seq<byte>, step: nat, written: nat)
    requires Scanning(json, text, read, into) && |json'| == |json| && read + step <= |text| && written <= step
    requires forall k :: read + step <= k < |json| ==> json'[k] == json[k]
    ensures Scanning(json', text, read + step, into + written)
  {
    assert json'[read + step..|text|] == json[read..|text|][step..] == text[read..][step..] == text[read + step..];
  }

  lemma AfterLineAt(text: bytes, k: nat)
    requires k <= |text|
    ensures AfterLine(text[k..]) ==
      if k == |text| then [] else if text[k] == NEWLINE then text[k + 1..] else AfterLine(text[k + 1..])
  {
    if k < |text| { assert text[k..][1..] == text[k + 1..]; } else { assert text[k..] == []; }
  }

  /** `skip_oneline_comment`. */
  method SkipLine(json: array<byte>, start: nat, ghost text: bytes, ghost into: nat) returns (read: nat)
    requires Scanning(json[..], text, start, into) && start + 2 <= |text|
    ensures start < read && Scanning(json[..], text, read, into) && text[read..] == AfterLine(text[start + 2..])
  {
    hide AfterLine;
    read := start + 2;
    ScanningMoves(json[..], text, start, into, json[..], 2, 0);
    ScanningAt(json[..], text, read, into);
    while json[read] != 0
      invariant start < read && Scanning(json[..], text, read, into) && (json[read] == 0 <==> read == |text|)
      invariant AfterLine(text[start + 2..]) == AfterLine(text[read..])
      decreases |text| - read
    {
      ScanningAt(json[..], text, read, into);
      AfterLineAt(text, read);
      ScanningMoves(json[..], text, read, into, json[..], 1, 0);
      ScanningAt(json[..], text, read + 1, into);
      if json[read] == NEWLINE {
        read := read + 1;
        return;
      }
      read := read + 1;
    }
    AfterLineAt(text, read);
  }

  /** `skip_multiline_comment`. */
  method SkipBlock(json: array<byte>, start: nat, ghost text: bytes, ghost into: nat) returns (read: nat)
    requires Scanning(json[..], text, start, into) && start + 2 <= |text|
    ensures start < read && Scanning(json[..], text, read, into) && text[read..] == AfterBlock(text[start + 2..])
  {
    read := start + 2;
    ScanningMoves(json[..], text, start, into, json[..], 2, 0);
    ScanningAt(json[..], text, read, into);
    while json[read] != 0
      invariant start < read && Scanning(json[..], text, read, into) && (json[read] == 0 <==> read == |text|)
      invariant AfterBlock(text[start + 2..]) == AfterBlock(text[read..])
      decreases |text| - read
    {
      ScanningAt(json[..], text, read, into);
      if json[read] == STAR && json[read + 1] == SLASH {
        ScanningMoves(json[..], text, read, into, json[..], 2, 0);
        read := read + 2;
        return;
      }
      ScanningMoves(json[..], text, read, into, json[..], 1, 0);
      ScanningAt(json[..], text, read + 1, into);
      read := read + 1;
    }
  }

  /** `minify_string`. */
  method CopyString(json: array<byte>, start: nat, at: nat, ghost text: bytes) returns (read: nat, into: nat)
    requires Scanning(json[..], text, start, at) && start < |text| && text[start] == QUOTE
    modifies json
    ensures start < read && Scanning(json[..], text, read, into)
    ensures json[..into] + Outside(text[read..]) == old(json[..at]) + Outside(text[start..])
  {
    hide Outside, Inside;
    ghost var before := json[..at];
    read, into := CopyOne(json, start, at, text, [QUOTE]);
    OutsideQuote(text[start..]);
    Shift(before, [QUOTE], Inside(text[read..]));
    ghost var whole := before + Outside(text[start..]);
    ScanningAt(json[..], text, read, into);
    while json[read] != 0
      invariant start < read && Scanning(json[..], text, read, into) && (json[read] == 0 <==> read == |text|)
      invariant json[..into] + Inside(text[read..]) == whole
      decreases |text| - read
    {
      var closed;
      closed, read, into := CopyInside(json, read, into, text);
      if closed { return; }
      ScanningAt(json[..], text, read, into);
    }
    assert text[read..] == [];
    NothingLeft();
  }

  /** Store one byte and move on. */
  method CopyOne(json: array<byte>, start: nat, at: nat, ghost text: bytes, ghost piece: bytes)
    returns (read: nat, into: nat)
    requires Scanning(json[..], text, start, at) && start < |text| && piece == [text[start]]
    modifies json
    ensures read == start + 1 && into == at + 1 && Scanning(json[..], text, read, into)
    ensures json[..into] == old(json[..at]) + piece
  {
    ScanningAt(json[..], text, start, at);
    ghost var j := json[..];
    json[at] := json[start];
    read, into := start + 1, at + 1;
    ScanningMoves(j, text, start, at, json[..], 1, 1);
  }

  lemma Shift(w: bytes, piece: bytes, rest: bytes)
    ensures w + piece + rest == w + (piece + rest)
  {
  }

  /** What the string scanner does with the bytes at `k`. */
  lemma InsideAt(text: bytes, k: nat)
    requires k < |text|
    ensures text[k] == QUOTE ==> Inside(text[k..]) == [QUOTE] + Outside(text[k + 1..])
    ensures text[k] == BACKSLASH && k + 1 < |text| && text[k + 1] == QUOTE ==>
      Inside(text[k..]) == [BACKSLASH, QUOTE] + Inside(text[k + 2..])
    ensures text[k] != QUOTE && !(text[k] == BACKSLASH && k + 1 < |text| && text[k + 1] == QUOTE) ==>
      Inside(text[k..]) == [text[k]] + Inside(text[k + 1..])
  {
    hide Outside;
    assert text[k..][1..] == text[k + 1..];
    if k + 1 < |text| { assert text[k..][2..] == text[k + 2..]; }
  }

  /** One round of the loop of `minify_string`. */
  method CopyInside(json: array<byte>, start: nat, at: nat, ghost text: bytes)
    returns (closed: bool, read: nat, into: nat)
    requires Scanning(json[..], text, start, at) && start < |text|
    modifies json
    ensures start < read && Scanning(json[..], text, read, into)
    ensures json[..into] + (if closed then Outside(text[read..]) else Inside(text[read..])) ==
            old(json[..at]) + Inside(text[start..])
  {
    hide Outside, Inside;
    ScanningAt(json[..], text, start, at);
    InsideAt(text, start);
    if json[start] == BACKSLASH && json[start + 1] == QUOTE {
      closed := false;
      read, into := CopyEscape(json, start, at, text);
      Shift(old(json[..at]), [BACKSLASH, QUOTE], Inside(text[read..]));
    } else {
      closed := json[start] == QUOTE;
      read, into := CopyOne(json, start, at, text, [text[start]]);
      Shift(old(json[..at]), [text[start]], if closed then Outside(text[read..]) else Inside(text[read..]));
    }
  }

  /** A backslash and the quote behind it. */
  method CopyEscape(json: array<byte>, start: nat, at: nat, ghost text: bytes) returns (read: nat, into: nat)
    requires Scanning(json[..], text, start, at) && start + 1 < |text|
    requires text[start] == BACKSLASH && text[start + 1] == QUOTE
    modifies json
    ensures read == start + 2 && Scanning(json[..], text, read, into)
    ensures json[..into] == old(json[..at]) + [BACKSLASH, QUOTE]
  {
    read, into := CopyOne(json, start, at, text, [BACKSLASH]);
    read, into := CopyOne(json, read, into, text, [QUOTE]);
    Shift(old(json[..at]), [BACKSLASH], [QUOTE]);
  }

  lemma OutsideQuote(s: bytes)
    requires s != [] && s[0] == QUOTE
    ensures Outside(s) == [QUOTE] + Inside(s[1..])
  {
  }

  lemma NothingLeft()
    ensures Outside([]) == [] && Inside([]) == []
  {
  }

  /** One round of the loop of `cJSON_Minify`. */
  method Step(json: array<byte>, start: nat, at: nat, ghost text: bytes) returns (read: nat, into: nat)
    requires Scanning(json[..], text, start, at) && start < |text|
    modifies json
    ensures start < read && Scanning(json[..], text, read, into)
    ensures json[..into] + Outside(text[read..]) == old(json[..at]) + Outside(text[start..])
  {
    ScanningAt(json[..], text, start, at);
    read, into := start, at;
    if IsBlank(json[read]) {
      read := read + 1;
      ScanningMoves(json[..], text, start, at, json[..], 1, 0);
    } else if json[read] == SLASH {
      if json[read + 1] == SLASH {
        read := SkipLine(json, read, text, into);
      } else if json[read + 1] == STAR {
        read := SkipBlock(json, read, text, into);
      } else {
        read := read + 1;
        ScanningMoves(json[..], text, start, at, json[..], 1, 0);
      }
    } else if json[read] == QUOTE {
      read, into := CopyString(json, read, into, text);
    } else {
      ghost var w := json[..at];
      read, into := CopyOne(json, start, at, text, [text[start]]);
      Shift(w, [text[start]], Outside(text[read..]));
    }
  }

  /** `cJSON_Minify`: the NUL-terminated text becomes what the scanner copies, in the same array. */
  method Minify(json: array<byte>)
    requires 0 in json[..]
    modifies json
    ensures var out := Outside(CStr(old(json[..])));
      |out| < json.Length && json[..|out|] == out && json[|out|] == 0
  {
    hide Outside, CStr;
    ghost var text := CStr(json[..]);
    TextInside(json[..]);
    var read: nat, into: nat := 0, 0;
    assert text[0..] == text && json[..0] == [];
    assert json[..into] + Outside(text[read..]) == Outside(text);
    ScanningAt(json[..], text, read, into);
    while json[read] != 0
      invariant Scanning(json[..], text, read, into) && (json[read] == 0 <==> read == |text|)
      invariant json[..into] + Outside(text[read..]) == Outside(text)
      decreases |text| - read
    {
      read, into := Step(json, read, into, text);
      ScanningAt(json[..], text, read, into);
    }
    assert text[read..] == [];
    NothingLeft();
    json[into] := 0;
  }

  lemma {:induction false} TextInside(json: seq<byte>)
    requires 0 in json
    ensures var text := CStr(json); |text| < |json| && json[..|text|] == text && json[|text|] == 0 && 0 !in text
  {
    if json[0] != 0 {
      assert 0 in json[1..];
      TextInside(json[1..]);
      assert json == [json[0]] + json[1..];
    }
  }
}
