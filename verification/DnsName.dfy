/** Encoding a dotted hostname as a DNS QNAME (RFC 1035, sections 3.1 and 4.1.2), and reading it back. */
module DnsName {
  import opened Bytes

  const DOT: byte := 46
  const MAX_LABEL: nat := 63

  /** The length of the text before the next dot, or of all of it. */
  function LabelLength(p: bytes): (n: nat)
    ensures n <= |p| && DOT !in p[..n]
    ensures n < |p| ==> p[n] == DOT
  {
    if p == [] || p[0] == DOT then 0 else
    var n := 1 + LabelLength(p[1..]);
    assert p[..n] == [p[0]] + p[1..][..n - 1];
    n
  }

  /** What is left after a label and the dot behind it. */
  function AfterLabel(p: bytes): (r: bytes)
    requires p != []
    ensures |r| < |p|
  {
    var n := LabelLength(p);
    if n < |p| then p[n + 1..] else []
  }

  /** The labels of a hostname; a trailing dot adds none. */
  function Labels(p: bytes): seq<bytes>
    decreases |p|
  {
    if p == [] then [] else [p[..LabelLength(p)]] + Labels(AfterLabel(p))
  }

  predicate GoodLabel(l: bytes) { 0 < |l| <= MAX_LABEL }

  predicate AllGood(labels: seq<bytes>) { forall i :: 0 <= i < |labels| ==> GoodLabel(labels[i]) }

  /** Each label behind its length, without the root label. */
  function Prefixed(labels: seq<bytes>): bytes
    requires AllGood(labels)
  {
    if labels == [] then [] else [|labels[0]|] + labels[0] + Prefixed(labels[1..])
  }

  function Encoded(labels: seq<bytes>): bytes
    requires AllGood(labels)
  {
    Prefixed(labels) + [0]
  }

  lemma {:induction false} PrefixedAppend(a: seq<bytes>, b: seq<bytes>)
    requires AllGood(a) && AllGood(b)
    ensures AllGood(a + b) && Prefixed(a + b) == Prefixed(a) + Prefixed(b)
  {
    if a == [] {
      assert a + b == b;
    } else {
      assert (a + b)[1..] == a[1..] + b;
      PrefixedAppend(a[1..], b);
      Associative([|a[0]|] + a[0], Prefixed(a[1..]), Prefixed(b));
    }
  }

  lemma Associative(x: bytes, y: bytes, z: bytes)
    ensures x + (y + z) == x + y + z
  {
  }

  /** A bound on every prefix: what has been written is never longer than the whole. */
  lemma PrefixShorter(a: seq<bytes>, b: seq<bytes>)
    requires AllGood(a) && AllGood(b)
    ensures AllGood(a + b) && |Prefixed(a)| + |Prefixed(b)| == |Prefixed(a + b)|
  {
    PrefixedAppend(a, b);
  }

  /** What `encode_qname` promises about the labels it has written and the text it has not yet read. */
  predicate Progress(buf: bytes, pos: nat, done: seq<bytes>, rest: bytes, host: bytes) {
    pos <= |buf| && AllGood(done) && done + Labels(rest) == Labels(host) && buf[..pos] == Prefixed(done)
  }

  /**
   * The encoding of the whole name fits: all labels are good, and with the root label it is shorter than the buffer.
   */
  predicate Encodable(host: bytes, size: nat) {
    AllGood(Labels(host)) && |Encoded(Labels(host))| < size
  }

  /** `encode_qname`: it fails exactly for a bad label or an encoding not shorter than the buffer. */
  method EncodeQname(buf: array<byte>, host: bytes) returns (length: int)
    requires 0 !in host
    modifies buf
    ensures length == -1 <==> !Encodable(host, buf.Length)
    ensures length != -1 ==> 0 <= length <= buf.Length && buf[..length] == Encoded(Labels(host))
    ensures length != -1 ==> buf[length..] == old(buf[length..])
  {
    hide Progress, Labels, Prefixed, AllGood, LabelLength, AfterLabel;
    var pos, p := 0, host;
    ghost var done := [];
    Begin(buf[..], host);
    while p != []
      invariant 0 <= pos <= buf.Length
      invariant Progress(buf[..], pos, done, p, host)
      invariant forall k :: pos <= k < buf.Length ==> buf[k] == old(buf[k])
      decreases |p|
    {
      var n := LabelLength(p);
      if n == 0 || n > MAX_LABEL || pos + 1 + n >= buf.Length {
        BadStep(buf[..], pos, done, p, host);
        return -1;
      }
      ghost var before := buf[..];
      PutLabel(buf, pos, p[..n]);
      NextProgress(before, buf[..], pos, done, p, host);
      done := done + [p[..n]];
      pos := pos + 1 + n;
      p := AfterLabel(p);
    }
    AllRead(buf[..], pos, done, host);
    if pos + 1 >= buf.Length {
      return -1;
    }
    buf[pos] := 0;
    length := pos + 1;
    assert buf[..length] == buf[..pos] + [0];
  }

  method PutLabel(buf: array<byte>, pos: nat, l: bytes)
    requires GoodLabel(l) && pos + 1 + |l| <= buf.Length
    modifies buf
    ensures buf[..pos + 1 + |l|] == old(buf[..pos]) + [|l|] + l
    ensures forall k :: pos + 1 + |l| <= k < buf.Length ==> buf[k] == old(buf[k])
  {
    buf[pos] := |l|;
    for i := 0 to |l|
      invariant buf[..pos + 1 + i] == old(buf[..pos]) + [|l|] + l[..i]
      invariant forall k :: pos + 1 + |l| <= k < buf.Length ==> buf[k] == old(buf[k])
    {
      buf[pos + 1 + i] := l[i];
      assert buf[..pos + 1 + i + 1] == buf[..pos + 1 + i] + [l[i]];
      assert l[..i + 1] == l[..i] + [l[i]];
    }
    assert l[..|l|] == l;
  }

  lemma Begin(buf: bytes, host: bytes)
    ensures Progress(buf, 0, [], host, host)
  {
    hide Labels;
    assert [] + Labels(host) == Labels(host);
  }

  lemma NextProgress(before: bytes, buf: bytes, pos: nat, done: seq<bytes>, p: bytes, host: bytes)
    requires p != [] && Progress(before, pos, done, p, host) && GoodLabel(p[..LabelLength(p)])
    requires pos + 1 + LabelLength(p) <= |buf|
    requires buf[..pos + 1 + LabelLength(p)] == before[..pos] + [LabelLength(p)] + p[..LabelLength(p)]
    ensures Progress(buf, pos + 1 + LabelLength(p), done + [p[..LabelLength(p)]], AfterLabel(p), host)
  {
    hide Labels, LabelLength, AfterLabel, Prefixed, AllGood;
    GoodStep(done, p, host);
  }

  lemma LabelStep(p: bytes)
    requires p != []
    ensures Labels(p) == [p[..LabelLength(p)]] + Labels(AfterLabel(p))
  {
  }

  lemma GoodStep(done: seq<bytes>, p: bytes, host: bytes)
    requires p != [] && AllGood(done) && GoodLabel(p[..LabelLength(p)]) && done + Labels(p) == Labels(host)
    ensures var l := p[..LabelLength(p)];
      AllGood(done + [l]) && (done + [l]) + Labels(AfterLabel(p)) == Labels(host) &&
      Prefixed(done + [l]) == Prefixed(done) + [|l|] + l
  {
    hide Labels, LabelLength, GoodLabel, Prefixed;
    var l := p[..LabelLength(p)];
    LabelStep(p);
    OneLabel(l);
    PrefixedAppend(done, [l]);
    assert (done + [l]) + Labels(AfterLabel(p)) == done + ([l] + Labels(AfterLabel(p)));
    assert (Prefixed(done) + [|l|]) + l == Prefixed(done) + ([|l|] + l);
  }

  lemma OneLabel(l: bytes)
    requires GoodLabel(l)
    ensures AllGood([l]) && Prefixed([l]) == [|l|] + l
  {
    assert Prefixed([l]) == [|l|] + l + Prefixed([]);
  }

  lemma BadStep(buf: bytes, pos: nat, done: seq<bytes>, p: bytes, host: bytes)
    requires p != [] && Progress(buf, pos, done, p, host)
    requires !GoodLabel(p[..LabelLength(p)]) || pos + 1 + LabelLength(p) >= |buf|
    ensures !Encodable(host, |buf|)
  {
    hide Labels, Prefixed, LabelLength;
    var l, rest := p[..LabelLength(p)], Labels(AfterLabel(p));
    LabelStep(p);
    assert Labels(host)[|done|] == l;
    if AllGood(Labels(host)) {
      assert forall i :: 0 <= i < |rest| ==> rest[i] == Labels(host)[|done| + 1 + i];
      GoodStep(done, p, host);
      PrefixShorter(done + [l], rest);
    }
  }

  lemma AllRead(buf: bytes, pos: nat, done: seq<bytes>, host: bytes)
    requires Progress(buf, pos, done, [], host)
    ensures AllGood(Labels(host)) && pos <= |buf| && buf[..pos] == Prefixed(Labels(host))
  {
    assert Labels([]) == [];
    assert done + [] == done;
  }

  // ---- reading the encoding back ----

  /** The labels up to the root label. */
  function Decoded(w: bytes): Option<seq<bytes>>
    decreases |w|
  {
    if w == [] then None
    else if w[0] == 0 then Some([])
    else if 1 + w[0] > |w| || w[0] > MAX_LABEL then None
    else
      var rest := Decoded(w[1 + w[0]..]);
      if rest.None? then None else Some([w[1..1 + w[0]]] + rest.value)
  }

  /** Decoding gives back the labels, whatever follows the root label. */
  lemma {:induction false} EncodedBack(labels: seq<bytes>, after: bytes)
    requires AllGood(labels)
    ensures Decoded(Encoded(labels) + after) == Some(labels)
  {
    var w := Encoded(labels) + after;
    if labels == [] {
      assert w[0] == 0;
    } else {
      assert labels == [labels[0]] + labels[1..];
      var n := |labels[0]|;
      assert AllGood(labels[1..]);
      EncodedBack(labels[1..], after);
      assert w == [n] + labels[0] + (Encoded(labels[1..]) + after);
      assert w[1 + n..] == Encoded(labels[1..]) + after;
      assert w[1..1 + n] == labels[0];
    }
  }

  /** The labels with dots between them. */
  function Dotted(labels: seq<bytes>): bytes {
    if labels == [] then [] else if |labels| == 1 then labels[0] else labels[0] + [DOT] + Dotted(labels[1..])
  }

  function WithoutTrailingDot(host: bytes): bytes {
    if host != [] && host[|host| - 1] == DOT then host[..|host| - 1] else host
  }

  /** A hostname is its labels joined by dots, but for one trailing dot. */
  lemma {:induction false} LabelsJoin(host: bytes)
    ensures Dotted(Labels(host)) == WithoutTrailingDot(host)
    ensures Labels(host) == [] <==> host == []
    decreases |host|
  {
    if host != [] {
      LabelsJoin(AfterLabel(host));
      LabelStep(host);
      DottedStep(host[..LabelLength(host)], Labels(AfterLabel(host)));
      TrailingDot(host, AfterLabel(host));
    }
  }

  lemma DottedStep(l: bytes, rest: seq<bytes>)
    ensures Dotted([l] + rest) == if rest == [] then l else l + [DOT] + Dotted(rest)
  {
    assert ([l] + rest)[1..] == rest;
  }

  lemma TrailingDot(host: bytes, rest: bytes)
    requires host != [] && rest == AfterLabel(host)
    ensures var l := host[..LabelLength(host)];
      WithoutTrailingDot(host) == if rest == [] then l else l + [DOT] + WithoutTrailingDot(rest)
  {
    hide WithoutTrailingDot, LabelLength, AfterLabel;
    HostParts(host);
    var l := host[..LabelLength(host)];
    if l == host {
      NoTrailingDot(host);
    } else if rest == [] {
      TrailingDotOnly(l);
      assert l + [DOT] + rest == l + [DOT];
    } else {
      StripBehind(l + [DOT], rest);
    }
  }

  lemma HostParts(host: bytes)
    requires host != []
    ensures var l, rest := host[..LabelLength(host)], AfterLabel(host);
      if LabelLength(host) == |host| then l == host && rest == [] && DOT !in host
      else l != host && host == l + [DOT] + rest
  {
    hide LabelLength;
    var n := LabelLength(host);
    if n == |host| {
      assert host[..n] == host;
    } else {
      SplitAt(host, n);
      assert |host[..n]| == n;
    }
  }

  lemma SplitAt(s: bytes, n: nat)
    requires n < |s|
    ensures s == s[..n] + [s[n]] + s[n + 1..]
  {
  }

  lemma NoTrailingDot(host: bytes)
    requires DOT !in host
    ensures WithoutTrailingDot(host) == host
  {
  }

  lemma TrailingDotOnly(l: bytes)
    ensures WithoutTrailingDot(l + [DOT]) == l
  {
  }

  lemma StripBehind(a: bytes, b: bytes)
    requires b != []
    ensures WithoutTrailingDot(a + b) == a + WithoutTrailingDot(b)
  {
    var w := a + b;
    assert w[|w| - 1] == b[|b| - 1];
    assert w[..|w| - 1] == a + b[..|b| - 1];
  }

  /** Two hostnames with the same encoding differ at most in one trailing dot. */
  lemma EncodingInjective(a: bytes, b: bytes)
    requires AllGood(Labels(a)) && AllGood(Labels(b)) && Encoded(Labels(a)) == Encoded(Labels(b))
    ensures WithoutTrailingDot(a) == WithoutTrailingDot(b)
  {
    hide Labels, Encoded, Decoded;
    EncodedBack(Labels(a), []);
    EncodedBack(Labels(b), []);
    LabelsJoin(a);
    LabelsJoin(b);
  }
}
