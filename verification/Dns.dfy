/** Building a query and expanding names in devel/libevbase/src/evdns.c (RFC 1035, sections 3.1, 4.1.2 and 4.1.4). */
module Dns {
  const DOT := 46
  const BACKSLASH := 92
  const OFF_MASK := 0xC0
  const MAXCDNAME := 255
  const HFIXEDSZ := 12
  const QFIXEDSZ := 4

  type Bytes = seq<int>

  // ---- Names ----

  /** A label of a domain name as a user may write it. */
  ghost predicate GoodLabel(l: Bytes) {
    1 <= |l| <= 63 && forall i :: 0 <= i < |l| ==> 0 < l[i] < 256 && l[i] != DOT && l[i] != BACKSLASH
  }

  ghost predicate GoodLabels(labels: seq<Bytes>) {
    forall i :: 0 <= i < |labels| ==> GoodLabel(labels[i])
  }

  /** The labels with a dot after each. */
  function WithDots(labels: seq<Bytes>): Bytes {
    if labels == [] then [] else labels[0] + [DOT] + WithDots(labels[1..])
  }

  /** A final dot is taken off. */
  function Trim(s: Bytes): Bytes {
    if s != [] && s[|s| - 1] == DOT then s[..|s| - 1] else s
  }

  /** The labels with dots between them. */
  function Dotted(labels: seq<Bytes>): Bytes {
    Trim(WithDots(labels))
  }

  /** The uncompressed form: each label after its length, then the root. */
  function Wire(labels: seq<Bytes>): Bytes {
    if labels == [] then [0] else [|labels[0]|] + labels[0] + Wire(labels[1..])
  }

  // ---- Writing a name ----

  /** The characters of the label at the front, without backslashes, and what is left behind it. */
  function LabelAt(s: Bytes): Bytes {
    if s == [] || s[0] == DOT then [] else if s[0] == BACKSLASH then LabelAt(s[1..]) else [s[0]] + LabelAt(s[1..])
  }

  function AfterLabel(s: Bytes): (t: Bytes)
    ensures |t| <= |s| && (t != [] ==> t[0] == DOT)
  {
    if s == [] || s[0] == DOT then s else AfterLabel(s[1..])
  }

  /** The `do` loop: a label, and on behind the dot. The length is stored in a byte. */
  function NameBytes(s: Bytes): Bytes
    decreases |s|
  {
    var l, t := LabelAt(s), AfterLabel(s);
    [|l| % 256] + l + if |t| <= 1 then [] else NameBytes(t[1..])
  }

  function Unescaped(s: Bytes): nat {
    if s == [] then 0 else (if s[0] == BACKSLASH then 0 else 1) + Unescaped(s[1..])
  }

  /** The size `evdns_make_query` reckons the encoded name to have. */
  function NameLen(s: Bytes): nat
    requires s != []
  {
    Unescaped(s) + (if s[|s| - 1] != DOT then 1 else 0) + 1
  }

  lemma {:induction false} LabelOf(l: Bytes, t: Bytes)
    requires forall i :: 0 <= i < |l| ==> l[i] != DOT && l[i] != BACKSLASH
    requires t == [] || t[0] == DOT
    ensures LabelAt(l + t) == l && AfterLabel(l + t) == t
  {
    if l == [] {
      assert l + t == t;
    } else {
      LabelOf(l[1..], t);
      assert (l + t)[1..] == l[1..] + t;
    }
  }

  lemma {:induction false} NothingEscaped(s: Bytes)
    requires NoBackslash(s)
    ensures Unescaped(s) == |s|
  {
    if s != [] {
      NothingEscaped(s[1..]);
    }
  }

  lemma {:induction false} DotsEnd(labels: seq<Bytes>)
    requires labels != []
    ensures WithDots(labels) != [] && WithDots(labels)[|WithDots(labels)| - 1] == DOT
  {
    if |labels| > 1 {
      DotsEnd(labels[1..]);
    } else {
      assert labels[1..] == [] && WithDots(labels) == labels[0] + [DOT];
    }
  }

  /** Taking the first label off a dotted name. */
  lemma DottedStep(labels: seq<Bytes>)
    requires |labels| > 0
    ensures Dotted(labels) == labels[0] + if |labels| == 1 then [] else [DOT] + Dotted(labels[1..])
  {
    DotsEnd(labels);
    if |labels| > 1 {
      DotsEnd(labels[1..]);
      assert WithDots(labels) == (labels[0] + [DOT]) + WithDots(labels[1..]);
    } else {
      assert labels[1..] == [] && WithDots(labels) == labels[0] + [DOT];
    }
  }

  /** One round of the loop. */
  lemma NameStep(s: Bytes)
    ensures NameBytes(s)
         == ([|LabelAt(s)| % 256] + LabelAt(s)) + if |AfterLabel(s)| <= 1 then [] else NameBytes(AfterLabel(s)[1..])
  {
    hide LabelAt, AfterLabel;
  }

  lemma WireStep(l: Bytes, rest: seq<Bytes>)
    ensures Wire([l] + rest) == [|l|] + l + Wire(rest)
  {
    assert ([l] + rest)[1..] == rest;
  }

  lemma LengthByte(l: Bytes)
    requires GoodLabel(l)
    ensures |l| % 256 == |l| && forall i :: 0 <= i < |l| ==> l[i] != DOT && l[i] != BACKSLASH
  {
  }

  lemma OnlyLabel(l: Bytes)
    requires GoodLabel(l)
    ensures NameBytes(l) == [|l|] + l
  {
    hide NameBytes, LabelAt, AfterLabel, GoodLabel;
    LengthByte(l);
    LabelOf(l, []);
    assert l + [] == l;
    NameStep(l);
    assert ([|l|] + l) + [] == [|l|] + l;
  }

  /** What is written for the first of several labels. */
  lemma FirstLabel(l: Bytes, rest: Bytes)
    requires GoodLabel(l) && rest != []
    ensures NameBytes(l + ([DOT] + rest)) == ([|l|] + l) + NameBytes(rest)
  {
    hide NameBytes, LabelAt, AfterLabel, GoodLabel;
    LengthByte(l);
    var t := [DOT] + rest;
    LabelOf(l, t);
    NameStep(l + t);
    assert t[1..] == rest;
  }

  /** The dotted name of good labels is written as those labels. */
  lemma {:induction false} NameIsWire(labels: seq<Bytes>)
    requires GoodLabels(labels) && labels != []
    ensures NameBytes(Dotted(labels)) + [0] == Wire(labels)
    ensures |Dotted(labels)| + 2 == |Wire(labels)|
    ensures NoBackslash(Dotted(labels)) && Dotted(labels) != [] && Dotted(labels)[|Dotted(labels)| - 1] != DOT
    decreases |labels|
  {
    hide NameBytes, Dotted, Wire;
    var l, rest := labels[0], labels[1..];
    DottedStep(labels);
    assert GoodLabel(l) && labels == [l] + rest;
    WireStep(l, rest);
    if |labels| == 1 {
      OnlyLabel(l);
      assert rest == [] && Wire(rest) == [0] by { WireOfNone(); }
      assert l + [] == l;
    } else {
      assert GoodLabels(rest);
      NameIsWire(rest);
      FirstLabel(l, Dotted(rest));
      TwoParts(l, Dotted(rest));
      Regroup([|l|] + l, NameBytes(Dotted(rest)));
    }
  }

  ghost predicate NoBackslash(s: Bytes) {
    forall i :: 0 <= i < |s| ==> s[i] != BACKSLASH
  }

  lemma TwoParts(l: Bytes, d: Bytes)
    requires GoodLabel(l) && NoBackslash(d) && d != [] && d[|d| - 1] != DOT
    ensures var s := l + ([DOT] + d); NoBackslash(s) && s != [] && s[|s| - 1] != DOT && |s| == |l| + 1 + |d|
  {
  }

  lemma Regroup(a: Bytes, b: Bytes)
    ensures (a + b) + [0] == a + (b + [0])
  {
  }

  lemma WireOfNone()
    ensures Wire([]) == [0]
  {
  }

  // ---- Reading a name ----

  /**
    A name at `p` in a segment that began at `seg`: labels up to the root, or up to a pointer to an earlier segment.
    Pointers only go back, so following them ends.
   */
  ghost predicate NameAt(msg: Bytes, p: nat, seg: nat)
    decreases seg, |msg| - p
  {
    && p < |msg| && 0 <= msg[p] < 256
    && (msg[p] == 0
        || (0 < msg[p] < OFF_MASK && p + 1 + msg[p] < |msg| && NameAt(msg, p + 1 + msg[p], seg))
        || (msg[p] >= OFF_MASK && p + 1 < |msg| && 0 <= msg[p + 1] < 256 && Offset(msg, p) < seg
            && NameAt(msg, Offset(msg, p), Offset(msg, p))))
  }

  function Offset(msg: Bytes, p: nat): nat
    requires p + 1 < |msg| && OFF_MASK <= msg[p] < 256 && 0 <= msg[p + 1]
  {
    (msg[p] - OFF_MASK) * 256 + msg[p + 1]
  }

  ghost function LabelsAt(msg: Bytes, p: nat, seg: nat): seq<Bytes>
    requires NameAt(msg, p, seg)
    decreases seg, |msg| - p
  {
    if msg[p] == 0 then []
    else if msg[p] < OFF_MASK then [msg[p + 1..p + 1 + msg[p]]] + LabelsAt(msg, p + 1 + msg[p], seg)
    else LabelsAt(msg, Offset(msg, p), Offset(msg, p))
  }

  /** Where the reader of a message goes on: behind the root, or behind the first pointer. */
  ghost function NextAt(msg: Bytes, p: nat, seg: nat): nat
    requires NameAt(msg, p, seg)
    decreases |msg| - p
  {
    if msg[p] == 0 then p + 1
    else if msg[p] < OFF_MASK then NextAt(msg, p + 1 + msg[p], seg)
    else p + 2
  }

  /** `w` stands in the message at `p`. */
  ghost predicate StandsAt(w: Bytes, msg: Bytes, p: nat) {
    p + |w| <= |msg| && forall i :: 0 <= i < |w| ==> msg[p + i] == w[i]
  }

  lemma PartStands(a: Bytes, b: Bytes, msg: Bytes, p: nat)
    requires StandsAt(a + b, msg, p)
    ensures p + |a| <= |msg| && msg[p..p + |a|] == a && StandsAt(b, msg, p + |a|)
  {
    forall i | 0 <= i < |a|
      ensures msg[p..p + |a|][i] == a[i]
    {
      assert (a + b)[i] == a[i];
    }
    forall i | 0 <= i < |b|
      ensures msg[p + |a| + i] == b[i]
    {
      assert (a + b)[|a| + i] == b[i];
    }
  }

  /** An uncompressed name reads as its labels, wherever it stands. */
  lemma {:induction false} WireReads(labels: seq<Bytes>, msg: Bytes, p: nat, seg: nat)
    requires GoodLabels(labels) && StandsAt(Wire(labels), msg, p)
    ensures NameAt(msg, p, seg) && LabelsAt(msg, p, seg) == labels && NextAt(msg, p, seg) == p + |Wire(labels)|
    decreases |labels|
  {
    hide StandsAt;
    if labels == [] {
      PartStands([0], [], msg, p) by {
        assert [0] + [] == Wire([]);
      }
      assert msg[p] == msg[p..p + 1][0];
    } else {
      var l, rest := labels[0], labels[1..];
      assert GoodLabel(l) && GoodLabels(rest) && labels == [l] + rest;
      assert Wire(labels) == [|l|] + (l + Wire(rest));
      PartStands([|l|], l + Wire(rest), msg, p);
      assert msg[p] == msg[p..p + 1][0] == |l|;
      PartStands(l, Wire(rest), msg, p + 1);
      WireReads(rest, msg, p + 1 + |l|, seg);
    }
  }

  /** Labels without the root behind them. */
  function Prefix(labels: seq<Bytes>): Bytes {
    if labels == [] then [] else [|labels[0]|] + (labels[0] + Prefix(labels[1..]))
  }

  lemma LabelStep(msg: Bytes, p: nat, seg: nat)
    requires p < |msg| && 0 < msg[p] < OFF_MASK && p + 1 + msg[p] < |msg| && NameAt(msg, p + 1 + msg[p], seg)
    ensures NameAt(msg, p, seg) && NextAt(msg, p, seg) == NextAt(msg, p + 1 + msg[p], seg)
    ensures LabelsAt(msg, p, seg) == [msg[p + 1..p + 1 + msg[p]]] + LabelsAt(msg, p + 1 + msg[p], seg)
  {
  }

  lemma PointerStep(msg: Bytes, q: nat, seg: nat)
    requires q + 1 < |msg| && OFF_MASK <= msg[q] < 256 && 0 <= msg[q + 1] < 256 && Offset(msg, q) < seg
    requires NameAt(msg, Offset(msg, q), Offset(msg, q))
    ensures NameAt(msg, q, seg) && NextAt(msg, q, seg) == q + 2
    ensures LabelsAt(msg, q, seg) == LabelsAt(msg, Offset(msg, q), Offset(msg, q))
  {
  }

  /** Section 4.1.4: labels and then a pointer stand for those labels and the name the pointer leads to. */
  lemma {:induction false} CompressedReads(labels: seq<Bytes>, msg: Bytes, p: nat, seg: nat)
    requires GoodLabels(labels) && StandsAt(Prefix(labels), msg, p)
    requires var q := p + |Prefix(labels)|;
      && q + 1 < |msg| && OFF_MASK <= msg[q] < 256 && 0 <= msg[q + 1] < 256 && Offset(msg, q) < seg
      && NameAt(msg, Offset(msg, q), Offset(msg, q))
    ensures var q := p + |Prefix(labels)|;
      && NameAt(msg, p, seg) && NextAt(msg, p, seg) == q + 2
      && LabelsAt(msg, p, seg) == labels + LabelsAt(msg, Offset(msg, q), Offset(msg, q))
    decreases |labels|
  {
    hide StandsAt, NameAt, LabelsAt, NextAt;
    if labels == [] {
      PointerStep(msg, p, seg);
    } else {
      var l, rest := labels[0], labels[1..];
      assert GoodLabel(l) && GoodLabels(rest) && labels == [l] + rest;
      PartStands([|l|], l + Prefix(rest), msg, p);
      assert msg[p] == msg[p..p + 1][0] == |l|;
      PartStands(l, Prefix(rest), msg, p + 1);
      CompressedReads(rest, msg, p + 1 + |l|, seg);
      LabelStep(msg, p, seg);
    }
  }

  // ---- The code ----

  /** `DNS__SET16BIT` */
  function Put16(v: int): (b: Bytes)
    ensures |b| == 2
  {
    [v / 256 % 256, v % 256]
  }

  /** `DNS__16BIT` */
  function Get16(b: Bytes, p: nat): int
    requires p + 1 < |b|
  {
    b[p] * 256 + b[p + 1]
  }

  /** The header of a query, with one question. */
  function Header(id: int, rd: bool): (h: Bytes)
    ensures |h| == HFIXEDSZ
  {
    Put16(id) + [if rd then 1 else 0, 0] + Put16(1) + [0, 0, 0, 0, 0, 0]
  }

  datatype Query = Query(buflen: int, buf: Bytes)

  /** The counting loop at the start. */
  method CountName(domain: Bytes) returns (len: nat)
    requires domain != []
    ensures len == NameLen(domain)
  {
    len := 0;
    var p := 0;
    assert domain[0..] == domain;
    while p < |domain|
      invariant 0 <= p <= |domain| && len + Unescaped(domain[p..]) == Unescaped(domain)
    {
      assert domain[p..][1..] == domain[p + 1..];
      if domain[p] != BACKSLASH {
        len := len + 1;
      }
      p := p + 1;
    }
    if domain[p - 1] != DOT {
      len := len + 1;
    }
    len := len + 1;
  }

  /** The inner loop: one label, with its length stored in front of it. */
  method WriteLabel(name: Bytes, p0: nat, q0: Bytes) returns (p: nat, q: Bytes)
    requires p0 <= |name|
    ensures p0 <= p <= |name| && name[p..] == AfterLabel(name[p0..])
    ensures q == q0 + ([|LabelAt(name[p0..])| % 256] + LabelAt(name[p0..]))
  {
    p := p0;
    var s: Bytes := [];
    var len := 0;
    while p < |name| && name[p] != DOT
      invariant p0 <= p <= |name| && len == |s|
      invariant s + LabelAt(name[p..]) == LabelAt(name[p0..]) && AfterLabel(name[p..]) == AfterLabel(name[p0..])
    {
      assert name[p..][1..] == name[p + 1..];
      if name[p] == BACKSLASH {
        p := p + 1;
      } else {
        assert s + ([name[p]] + LabelAt(name[p + 1..])) == (s + [name[p]]) + LabelAt(name[p + 1..]);
        s := s + [name[p]];
        p := p + 1;
        len := len + 1;
      }
    }
    assert s + [] == s;
    q := q0 + ([len % 256] + s);
  }

  /** The `do` loop over the labels. */
  method WriteName(name: Bytes, q0: Bytes) returns (q: Bytes)
    ensures q == q0 + NameBytes(name)
  {
    hide NameBytes, LabelAt, AfterLabel;
    var p: nat;
    NameStep(name);
    assert name[0..] == name;
    p, q := WriteLabel(name, 0, q0);
    if p < |name| {
      p := p + 1;
    }
    Rest(name, AfterLabel(name), p);
    Assoc(q0, [|LabelAt(name)| % 256] + LabelAt(name), if p < |name| then NameBytes(name[p..]) else []);
    while p < |name|
      invariant 0 <= p <= |name|
      invariant q + (if p < |name| then NameBytes(name[p..]) else []) == q0 + NameBytes(name)
    {
      ghost var rest, q1 := name[p..], q;
      NameStep(rest);
      p, q := WriteLabel(name, p, q);
      if p < |name| {
        p := p + 1;
      }
      Rest(name, AfterLabel(rest), p);
      Assoc(q1, [|LabelAt(rest)| % 256] + LabelAt(rest), if p < |name| then NameBytes(name[p..]) else []);
    }
    assert q + [] == q;
  }

  /** Skipping the dot behind a label leads to what is left of the name. */
  lemma Rest(name: Bytes, t: Bytes, p: nat)
    requires p <= |name| && |t| <= |name|
    requires t == name[|name| - |t|..] && p == (if t == [] then |name| else |name| - |t| + 1)
    ensures (if |t| <= 1 then [] else NameBytes(t[1..])) == if p < |name| then NameBytes(name[p..]) else []
  {
    if |t| > 1 {
      assert t[1..] == name[p..];
    }
  }

  lemma Assoc(a: Bytes, b: Bytes, c: Bytes)
    ensures (a + b) + c == a + (b + c)
  {
  }

  /** `evdns_make_query` for a domain that is not empty; the bytes written. */
  method MakeQuery(domain: Bytes, dnsclass: int, kind: int, id: int, rd: bool) returns (r: Query)
    requires domain != []
    ensures NameLen(domain) > MAXCDNAME ==> r.buflen == -1
    ensures NameLen(domain) <= MAXCDNAME ==> r.buflen == NameLen(domain) + HFIXEDSZ + QFIXEDSZ
    ensures NameLen(domain) <= MAXCDNAME ==>
      r.buf
      == Header(id, rd) + (NameBytes(if domain == [DOT] then [] else domain) + [0]) + (Put16(kind) + Put16(dnsclass))
  {
    hide NameBytes, NameLen, Put16;
    var len := CountName(domain);
    if len > MAXCDNAME {
      return Query(-1, []);
    }
    var buflen := len + HFIXEDSZ + QFIXEDSZ;
    var q := Put16(id) + [if rd then 1 else 0, 0] + Put16(1) + [0, 0, 0, 0, 0, 0];
    var name := if domain == [DOT] then [] else domain;
    q := WriteName(name, q);
    q := q + [0];
    q := q + (Put16(kind) + Put16(dnsclass));
    assert q == Header(id, rd) + (NameBytes(name) + [0]) + (Put16(kind) + Put16(dnsclass));
    r := Query(buflen, q);
  }

  /** `evdns_expand_name`; pointers that never come to an end would keep the source in its loop. */
  method ExpandName(msg: Bytes, ptr: nat) returns (name: Bytes, ret: nat)
    requires NameAt(msg, ptr, ptr)
    ensures name == Dotted(LabelsAt(msg, ptr, ptr)) && ret == NextAt(msg, ptr, ptr)
  {
    hide WithDots;
    var p: nat, seg: nat := ptr, ptr;
    var flag := false;
    name, ret := [], 0;
    while p < |msg| && msg[p] != 0
      invariant NameAt(msg, p, seg)
      invariant name + WithDots(LabelsAt(msg, p, seg)) == WithDots(LabelsAt(msg, ptr, ptr))
      invariant if flag then ret == NextAt(msg, ptr, ptr) else NextAt(msg, p, seg) == NextAt(msg, ptr, ptr)
      decreases seg, |msg| - p
    {
      if msg[p] >= OFF_MASK {
        if !flag {
          ret, flag := p + 2, true;
        }
        p := Offset(msg, p);
        seg := p;
      } else {
        var n: nat := msg[p];
        p := p + 1;
        OneMoreLabel(name, msg[p..p + n], LabelsAt(msg, p + n, seg));
        name := name + msg[p..p + n] + [DOT];
        p := p + n;
      }
    }
    if !flag {
      ret := p + 1;
    }
    NoMoreLabels(name);
    if name != [] && name[|name| - 1] == DOT {
      name := name[..|name| - 1];
    }
  }

  lemma NoMoreLabels(name: Bytes)
    ensures name + WithDots([]) == name
  {
  }

  lemma OneMoreLabel(name: Bytes, l: Bytes, labels: seq<Bytes>)
    ensures name + WithDots([l] + labels) == (name + l + [DOT]) + WithDots(labels)
  {
    assert ([l] + labels)[1..] == labels;
  }

  // ---- Round trip ----

  /** A query for a good name is exactly as long as announced, and its question reads as what was asked. */
  method QueryRoundTrip(labels: seq<Bytes>, dnsclass: int, kind: int, id: int, rd: bool)
      returns (q: Query, name: Bytes, ret: nat)
    requires GoodLabels(labels) && labels != [] && |Wire(labels)| <= MAXCDNAME
    ensures q.buflen == |q.buf| && name == Dotted(labels) && ret == HFIXEDSZ + |Wire(labels)|
    ensures ret + QFIXEDSZ == |q.buf|
    ensures |q.buf| == 12 + |Wire(labels)| + 4 && Get16(q.buf, 0) == id % 65536
    ensures OnlyQuestion(q.buf, rd)
    ensures Get16(q.buf, ret) == kind % 65536 && Get16(q.buf, ret + 2) == dnsclass % 65536
  {
    hide Dotted, NameBytes, Wire, NameAt, LabelsAt, NextAt, Header, Put16, Get16, GoodLabels, Unescaped;
    var domain := Dotted(labels);
    NameIsWire(labels);
    NothingEscaped(domain);
    q := MakeQuery(domain, dnsclass, kind, id, rd);
    ghost var w := Wire(labels);
    QueryParts(Header(id, rd), w, Put16(kind) + Put16(dnsclass), q.buf);
    WireReads(labels, q.buf, HFIXEDSZ, HFIXEDSZ);
    name, ret := ExpandName(q.buf, HFIXEDSZ);
    HeaderReads(id, rd, q.buf);
    QuestionReads(kind, dnsclass, q.buf, ret);
  }

  lemma QueryParts(h: Bytes, w: Bytes, t: Bytes, buf: Bytes)
    requires buf == h + w + t
    ensures StandsAt(h, buf, 0) && StandsAt(w, buf, |h|) && StandsAt(t, buf, |h| + |w|)
  {
  }

  lemma HeaderReads(id: int, rd: bool, buf: Bytes)
    requires StandsAt(Header(id, rd), buf, 0)
    ensures |buf| >= 12 && Get16(buf, 0) == id % 65536 && OnlyQuestion(buf, rd)
  {
    TwoBytes(id);
    var h := Header(id, rd);
    assert |buf| >= 0 + |h|;
    forall i | 0 <= i < 12
      ensures buf[i] == h[i]
    {
      assert buf[0 + i] == h[i];
    }
    assert h[0] == id / 256 % 256 && h[1] == id % 256 && h[4] == 0 && h[5] == 1;
  }

  /** No flag but RD, one question, and no answers, authorities or additional records. */
  predicate OnlyQuestion(buf: Bytes, rd: bool)
    requires |buf| >= 12
  {
    && Get16(buf, 2) == (if rd then 0x0100 else 0)
    && Get16(buf, 4) == 1 && Get16(buf, 6) == 0 && Get16(buf, 8) == 0 && Get16(buf, 10) == 0
  }

  /** A pointer is two bytes: 11 and then fourteen bits, the offset from the start of the message. */
  lemma PointerTarget(msg: Bytes, p: nat, high: nat, low: nat)
    requires p + 1 < |msg| && high < 64 && low < 256 && msg[p] == 192 + high && msg[p + 1] == low
    ensures Offset(msg, p) == high * 256 + low
  {
  }

  /** A name longer than 255 bytes in the wire form is refused. */
  lemma LongNames(labels: seq<Bytes>)
    requires GoodLabels(labels) && labels != []
    ensures NameLen(Dotted(labels)) == |Wire(labels)|
    ensures NameLen(Dotted(labels)) > MAXCDNAME <==> |Wire(labels)| > 255
  {
    hide Dotted, NameBytes, Wire;
    NameIsWire(labels);
    NothingEscaped(Dotted(labels));
  }

  lemma QuestionReads(kind: int, dnsclass: int, buf: Bytes, p: nat)
    requires StandsAt(Put16(kind) + Put16(dnsclass), buf, p)
    ensures p + 4 <= |buf| && Get16(buf, p) == kind % 65536 && Get16(buf, p + 2) == dnsclass % 65536
  {
    TwoBytes(kind);
    TwoBytes(dnsclass);
    var t := Put16(kind) + Put16(dnsclass);
    assert buf[p + 0] == t[0] && buf[p + 1] == t[1] && buf[p + 2] == t[2] && buf[p + 3] == t[3];
  }

  lemma TwoBytes(v: int)
    ensures v / 256 % 256 * 256 + v % 256 == v % 65536
  {
  }
}
