/** How `conn_packet_reader` cuts the received stream into packets: by length, or by a delimiter found with `strstr`. */
module ConnFraming {
  /** PACKET_CERTAIN_LENGTH and PACKET_DELIMITER sessions. */
  datatype Framing = CertainLength(length: nat) | Delimiter(text: seq<int>)

  ghost predicate FramingOk(f: Framing) {
    f.Delimiter? ==> |f.text| > 0 && 0 !in f.text
  }

  // ---- strstr ----

  /** The part of a buffer that is a C string; the buffer is followed by a NUL byte. */
  function CString(b: seq<int>): (s: seq<int>)
    ensures s <= b && 0 !in s
  {
    if b == [] || b[0] == 0 then [] else [b[0]] + CString(b[1..])
  }

  predicate MatchAt(s: seq<int>, d: seq<int>, i: nat) {
    i + |d| <= |s| && s[i..i + |d|] == d
  }

  datatype Place = At(i: nat) | Nowhere

  /** The first occurrence of `d` from `i` on. */
  function Find(s: seq<int>, d: seq<int>, i: nat): (r: Place)
    ensures r.At? ==> i <= r.i && MatchAt(s, d, r.i) && forall k :: i <= k < r.i ==> !MatchAt(s, d, k)
    ensures r.Nowhere? ==> forall k :: i <= k ==> !MatchAt(s, d, k)
    decreases |s| - i
  {
    if MatchAt(s, d, i) then At(i)
    else if i >= |s| then Nowhere
    else Find(s, d, i + 1)
  }

  lemma {:induction false} CStringGrows(b: seq<int>, more: seq<int>)
    ensures CString(b) <= CString(b + more)
  {
    if b != [] && b[0] != 0 {
      CStringGrows(b[1..], more);
      assert (b + more)[1..] == b[1..] + more;
    }
  }

  lemma MatchStays(s: seq<int>, t: seq<int>, d: seq<int>, i: nat)
    requires s <= t && i + |d| <= |s|
    ensures MatchAt(s, d, i) <==> MatchAt(t, d, i)
  {
    assert s[i..i + |d|] == t[i..i + |d|];
  }

  // ---- One packet ----

  /** The length of the packet at the start of the buffer, 0 if it is not complete. */
  function PacketLen(f: Framing, b: seq<int>): (n: nat)
    ensures n <= |b|
  {
    match f
    case CertainLength(length) => if |b| >= length then length else 0
    case Delimiter(d) =>
      match Find(CString(b), d, 0)
      case At(i) => i + |d|
      case Nowhere => 0
  }

  /** `b` ends with `d`. */
  predicate EndsWith(b: seq<int>, d: seq<int>) {
    |d| <= |b| && b[|b| - |d|..] == d
  }

  /** `p` is a first packet: it ends with the delimiter, holds it nowhere earlier, and no NUL. */
  ghost predicate FirstTo(p: seq<int>, d: seq<int>) {
    EndsWith(p, d) && 0 !in p && forall m :: 0 <= m < |p| ==> !EndsWith(p[..m], d)
  }

  /** The C string goes up to the first NUL. */
  lemma {:induction false} CStringEnds(b: seq<int>)
    ensures |CString(b)| < |b| ==> b[|CString(b)|] == 0
  {
    if b != [] && b[0] != 0 {
      CStringEnds(b[1..]);
    }
  }

  /** A prefix without NUL lies within the C string. */
  lemma NoNulInside(b: seq<int>, n: nat)
    requires n <= |b| && 0 !in b[..n]
    ensures n <= |CString(b)| && b[..n] == CString(b)[..n]
  {
    var s := CString(b);
    CStringEnds(b);
    NulPlaces(b, n, |s|);
    assert s == b[..|s|];
  }

  lemma NulPlaces(b: seq<int>, n: nat, i: nat)
    requires n <= |b| && 0 !in b[..n]
    ensures i < n ==> b[i] != 0
  {
    assert i < n ==> b[i] in b[..n];
  }

  lemma MatchEnds(b: seq<int>, d: seq<int>, i: nat)
    requires d != [] && i + |d| <= |CString(b)|
    ensures MatchAt(CString(b), d, i) <==> EndsWith(b[..i + |d|], d)
  {
    var s := CString(b);
    assert b[..i + |d|][i..] == s[i..i + |d|];
  }

  /** There is a packet exactly if some prefix without NUL ends with the delimiter; it is the shortest one. */
  lemma DelimitedPacket(d: seq<int>, b: seq<int>)
    requires FramingOk(Delimiter(d))
    ensures var n := PacketLen(Delimiter(d), b);
      && (n > 0 <==> exists m :: 0 <= m <= |b| && Delimited(b, d, m))
      && (n > 0 ==> FirstTo(b[..n], d))
  {
    hide EndsWith, Find;
    var n := PacketLen(Delimiter(d), b);
    forall m | 0 <= m <= |b| && Delimited(b, d, m)
      ensures n > 0
    {
      FoundBy(d, b, m);
    }
    if n > 0 {
      PacketFirst(d, b);
      assert Delimited(b, d, n);
    }
  }

  /** The first `m` bytes are free of NUL and end with the delimiter. */
  predicate Delimited(b: seq<int>, d: seq<int>, m: nat)
    requires m <= |b|
  {
    0 !in b[..m] && EndsWith(b[..m], d)
  }

  lemma FoundBy(d: seq<int>, b: seq<int>, m: nat)
    requires FramingOk(Delimiter(d)) && m <= |b| && Delimited(b, d, m)
    ensures 0 < PacketLen(Delimiter(d), b) <= m
  {
    hide CString;
    NoNulInside(b, m);
    MatchEnds(b, d, m - |d|);
  }

  lemma PacketFirst(d: seq<int>, b: seq<int>)
    requires FramingOk(Delimiter(d)) && PacketLen(Delimiter(d), b) > 0
    ensures FirstTo(b[..PacketLen(Delimiter(d), b)], d)
  {
    var s, n := CString(b), PacketLen(Delimiter(d), b);
    FoundAt(d, b);
    assert b[..n] == s[..n];
    forall m | 0 <= m < n
      ensures !EndsWith(b[..n][..m], d)
    {
      hide PacketLen, CString;
      assert b[..n][..m] == b[..m] == s[..m];
      if EndsWith(b[..m], d) {
        FoundBy(d, b, m);
      }
    }
  }

  lemma FoundAt(d: seq<int>, b: seq<int>)
    requires FramingOk(Delimiter(d)) && PacketLen(Delimiter(d), b) > 0
    ensures var n := PacketLen(Delimiter(d), b);
      n <= |CString(b)| && EndsWith(b[..n], d)
  {
    hide CString;
    MatchEnds(b, d, PacketLen(Delimiter(d), b) - |d|);
  }

  /** A certain length is a packet as soon as there is that much. */
  lemma CertainPacket(length: nat, b: seq<int>)
    ensures PacketLen(CertainLength(length), b) == if |b| >= length then length else 0
  {
  }

  /** Every packet of a stream ends with the delimiter and holds it nowhere earlier. */
  lemma {:induction false} SplitDelimited(d: seq<int>, b: seq<int>, k: nat)
    requires FramingOk(Delimiter(d)) && k < |Split(Delimiter(d), b).packets|
    ensures FirstTo(Split(Delimiter(d), b).packets[k], d)
    decreases |b|
  {
    hide PacketLen, FirstTo;
    DelimitedPacket(d, b);
    var n := PacketLen(Delimiter(d), b);
    if k > 0 {
      SplitDelimited(d, b[n..], k - 1);
    }
  }

  /** What is left holds no delimiter before a NUL. */
  lemma RestDelimited(d: seq<int>, b: seq<int>, m: nat)
    requires FramingOk(Delimiter(d))
    ensures var rest := Split(Delimiter(d), b).rest;
      m <= |rest| ==> !Delimited(rest, d, m)
  {
    SplitLosesNothing(Delimiter(d), b);
    DelimitedPacket(d, Split(Delimiter(d), b).rest);
  }

  /** Packets of a certain length have that length, and less is left. */
  lemma {:induction false} SplitCertain(length: nat, b: seq<int>, k: nat)
    requires length > 0
    ensures var cut := Split(CertainLength(length), b);
      && |cut.rest| < length
      && (k < |cut.packets| ==> |cut.packets[k]| == length)
    decreases |b|
  {
    if |b| >= length {
      SplitCertain(length, b[length..], if k > 0 then k - 1 else 0);
    }
  }

  /** More data does not change a packet that is complete. */
  lemma PacketStays(f: Framing, b: seq<int>, more: seq<int>)
    requires FramingOk(f) && PacketLen(f, b) > 0
    ensures PacketLen(f, b + more) == PacketLen(f, b)
  {
    if f.Delimiter? {
      var s, t := CString(b), CString(b + more);
      CStringGrows(b, more);
      var i := Find(s, f.text, 0).i;
      MatchStays(s, t, f.text, i);
      forall k | 0 <= k < i
        ensures !MatchAt(t, f.text, k)
      {
        MatchStays(s, t, f.text, k);
      }
    }
  }

  /** An empty buffer holds no packet. */
  lemma NoPacketInNothing(f: Framing)
    requires FramingOk(f)
    ensures PacketLen(f, []) == 0
  {
  }

  // ---- The greedy split ----

  datatype Cut = Cut(packets: seq<seq<int>>, rest: seq<int>)

  /** Packets off the front, each as short as possible, until none is complete. */
  function Split(f: Framing, b: seq<int>): Cut
    decreases |b|
  {
    var n := PacketLen(f, b);
    if n == 0 then Cut([], b)
    else
      var tail := Split(f, b[n..]);
      Cut([b[..n]] + tail.packets, tail.rest)
  }

  function Joined(packets: seq<seq<int>>): seq<int> {
    if packets == [] then [] else packets[0] + Joined(packets[1..])
  }

  lemma {:induction false} SplitLosesNothing(f: Framing, b: seq<int>)
    ensures Joined(Split(f, b).packets) + Split(f, b).rest == b
    ensures PacketLen(f, Split(f, b).rest) == 0
    decreases |b|
  {
    hide PacketLen, Joined;
    var n := PacketLen(f, b);
    if n > 0 {
      SplitLosesNothing(f, b[n..]);
      var tail := Split(f, b[n..]);
      JoinedFirst(b[..n], tail.packets);
      Regroup(b[..n], Joined(tail.packets), tail.rest);
      assert b == b[..n] + b[n..];
    } else {
      NothingJoined(b);
    }
  }

  lemma JoinedFirst(p: seq<int>, packets: seq<seq<int>>)
    ensures Joined([p] + packets) == p + Joined(packets)
  {
    assert ([p] + packets)[1..] == packets;
  }

  lemma Regroup(a: seq<int>, b: seq<int>, c: seq<int>)
    ensures a + (b + c) == (a + b) + c
  {
  }

  lemma NothingJoined(b: seq<int>)
    ensures Joined([]) + b == b
  {
  }

  /** Splitting what has come so far, and then the rest with what comes next, is splitting it all. */
  lemma {:induction false} SplitInTwo(f: Framing, b: seq<int>, more: seq<int>)
    requires FramingOk(f)
    ensures var first := Split(f, b);
      var second := Split(f, first.rest + more);
      Split(f, b + more) == Cut(first.packets + second.packets, second.rest)
    decreases |b|
  {
    hide PacketLen, Split;
    var n := PacketLen(f, b);
    SplitStep(f, b);
    if n > 0 {
      PacketStays(f, b, more);
      SplitStep(f, b + more);
      SplitInTwo(f, b[n..], more);
      Shifted(b, more, n);
      var tail := Split(f, b[n..]);
      RegroupPackets([b[..n]], tail.packets, Split(f, tail.rest + more).packets);
    } else {
      RegroupPackets([], [], Split(f, b + more).packets);
    }
  }

  /** Split takes one packet off the front, or stops. */
  lemma SplitStep(f: Framing, b: seq<int>)
    ensures var n := PacketLen(f, b);
      && (n == 0 ==> Split(f, b) == Cut([], b))
      && (n > 0 ==> Split(f, b) == Cut([b[..n]] + Split(f, b[n..]).packets, Split(f, b[n..]).rest))
  {
    hide PacketLen;
  }

  lemma Shifted(b: seq<int>, more: seq<int>, n: nat)
    requires n <= |b|
    ensures (b + more)[n..] == b[n..] + more && (b + more)[..n] == b[..n]
  {
  }

  lemma RegroupPackets(a: seq<seq<int>>, b: seq<seq<int>>, c: seq<seq<int>>)
    ensures (a + b) + c == a + (b + c) && [] + c == c
  {
  }

  // ---- Reads ----

  /** The packets from a sequence of reads, each split as far as possible before the next. */
  function Fed(f: Framing, buffer: seq<int>, pieces: seq<seq<int>>): Cut
    decreases |pieces|
  {
    if pieces == [] then Cut([], buffer)
    else
      var first := Split(f, buffer + pieces[0]);
      var tail := Fed(f, first.rest, pieces[1..]);
      Cut(first.packets + tail.packets, tail.rest)
  }

  /** The packets do not depend on where the reads were cut. */
  lemma {:induction false} ReadBoundariesDoNotMatter(f: Framing, buffer: seq<int>, pieces: seq<seq<int>>)
    requires FramingOk(f) && PacketLen(f, buffer) == 0
    ensures Fed(f, buffer, pieces) == Split(f, buffer + Joined(pieces))
    decreases |pieces|
  {
    hide PacketLen;
    if pieces == [] {
      assert buffer + [] == buffer;
    } else {
      var first := Split(f, buffer + pieces[0]);
      SplitLosesNothing(f, buffer + pieces[0]);
      ReadBoundariesDoNotMatter(f, first.rest, pieces[1..]);
      SplitInTwo(f, buffer + pieces[0], Joined(pieces[1..]));
      assert buffer + (pieces[0] + Joined(pieces[1..])) == (buffer + pieces[0]) + Joined(pieces[1..]);
    }
  }
}
