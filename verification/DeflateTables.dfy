/** What the tables of inflate.js hold, by the rules of RFC 1951 and not by their values. */
module DeflateTables {
  import opened Bits
  import opened Deflate

  // ---- Lengths: section 3.2.5 ----

  /** Extra bits of length symbol 257 + `i`: none for eight symbols, then one more for every four; none for the last. */
  function LengthBits(i: nat): nat {
    if i < 8 || i >= 28 then 0 else i / 4 - 1
  }

  /** The shortest length of symbol 257 + `i`: each begins where the one before ends; the last is 258. */
  function FirstLength(i: nat): nat {
    if i == 0 then 3 else if i >= 28 then 258 else FirstLength(i - 1) + Pow2(LengthBits(i - 1))
  }

  lemma LengthTable(i: nat)
    requires i < 29
    ensures LENGTH_EXTRA[i] == LengthBits(i) && COPY_LENGTHS[i] == FirstLength(i)
  {
    hide Pow2, COPY_LENGTHS, LENGTH_EXTRA;
    LengthStep(i);
    if 0 < i {
      LengthTable(i - 1);
    }
  }

  lemma LengthStep(i: nat)
    requires i < 29
    ensures COPY_LENGTHS[0] == 3 && COPY_LENGTHS[28] == 258 && LENGTH_EXTRA[i] == LengthBits(i)
    ensures 0 < i < 28 ==> COPY_LENGTHS[i] == COPY_LENGTHS[i - 1] + Pow2(LengthBits(i - 1))
  {
    hide Pow2;
    PowersOfTwo();
    match i {
      case 0 | 1 | 2 | 3 | 4 | 5 | 6 | 7 | 8 | 9 | 10 | 11 | 12 | 13 | 14 =>
      case 15 | 16 | 17 | 18 | 19 | 20 | 21 | 22 | 23 | 24 | 25 | 26 | 27 | 28 =>
    }
  }

  /**
    Every length from 3 to 257 is one symbol and one value of its extra bits; 258 is the last symbol, or symbol 284.
   */
  lemma OneLengthSymbol(len: nat) returns (i: nat)
    requires 3 <= len <= 257
    ensures i < 28 && FirstLength(i) <= len < FirstLength(i) + Pow2(LengthBits(i))
    ensures forall j :: 0 <= j < 29 && FirstLength(j) <= len < FirstLength(j) + Pow2(LengthBits(j)) ==> j == i
  {
    hide Pow2, LengthBits, FirstLength;
    NextLength(0);
    i := 0;
    while i < 27 && FirstLength(i + 1) <= len
      invariant 0 <= i <= 27 && FirstLength(i) <= len
      decreases 27 - i
    {
      i := i + 1;
    }
    NextLength(i);
    LastLength();
    forall j | 0 <= j < 29 && FirstLength(j) <= len < FirstLength(j) + Pow2(LengthBits(j))
      ensures j == i
    {
      NextLength(j);
      if j < i {
        LengthsGrow(j + 1, i);
      } else if i < j < 28 {
        LengthsGrow(i + 1, j);
      }
    }
  }

  lemma LastLength()
    ensures FirstLength(27) + Pow2(LengthBits(27)) == 259
  {
    LengthTable(27);
    PowersOfTwo();
  }

  lemma NextLength(i: nat)
    ensures FirstLength(0) == 3 && FirstLength(28) == 258
    ensures i < 27 ==> FirstLength(i + 1) == FirstLength(i) + Pow2(LengthBits(i))
  {
  }

  lemma LengthsGrow(i: nat, j: nat)
    requires i <= j <= 27
    ensures FirstLength(i) <= FirstLength(j)
    decreases j
  {
    if i < j {
      LengthsGrow(i, j - 1);
    }
  }

  // ---- Distances: section 3.2.5 ----

  /** Extra bits of distance symbol `i`: none for two symbols, then one more for every two. */
  function DistanceBits(i: nat): nat {
    if i < 2 then 0 else i / 2 - 1
  }

  function FirstDistance(i: nat): nat {
    if i == 0 then 1 else FirstDistance(i - 1) + Pow2(DistanceBits(i - 1))
  }

  lemma DistanceTable(i: nat)
    requires i < 30
    ensures DISTANCE_EXTRA[i] == DistanceBits(i) && COPY_DISTANCES[i] == FirstDistance(i)
  {
    hide Pow2, COPY_DISTANCES, DISTANCE_EXTRA;
    DistanceStep(i);
    if 0 < i {
      DistanceTable(i - 1);
    }
  }

  lemma DistanceStep(i: nat)
    requires i < 30
    ensures COPY_DISTANCES[0] == 1 && DISTANCE_EXTRA[i] == DistanceBits(i)
    ensures 0 < i ==> COPY_DISTANCES[i] == COPY_DISTANCES[i - 1] + Pow2(DistanceBits(i - 1))
  {
    hide Pow2;
    PowersOfTwo();
    match i {
      case 0 | 1 | 2 | 3 | 4 | 5 | 6 | 7 | 8 | 9 | 10 | 11 | 12 | 13 | 14 =>
      case 15 | 16 | 17 | 18 | 19 | 20 | 21 | 22 | 23 | 24 | 25 | 26 | 27 | 28 | 29 =>
    }
  }

  /** Every distance from 1 to 32768 is one symbol and one value of its extra bits. */
  lemma OneDistanceSymbol(distance: nat) returns (i: nat)
    requires 1 <= distance <= WSIZE
    ensures i < 30 && FirstDistance(i) <= distance < FirstDistance(i) + Pow2(DistanceBits(i))
    ensures forall j :: 0 <= j < 30 && FirstDistance(j) <= distance < FirstDistance(j) + Pow2(DistanceBits(j)) ==>
      j == i
  {
    hide Pow2, DistanceBits, FirstDistance;
    NextDistance(0);
    i := 0;
    while i < 29 && FirstDistance(i + 1) <= distance
      invariant 0 <= i <= 29 && FirstDistance(i) <= distance
      decreases 29 - i
    {
      i := i + 1;
    }
    NextDistance(i);
    LastDistance();
    forall j | 0 <= j < 30 && FirstDistance(j) <= distance < FirstDistance(j) + Pow2(DistanceBits(j))
      ensures j == i
    {
      NextDistance(j);
      if j < i {
        DistancesGrow(j + 1, i);
      } else if i < j {
        DistancesGrow(i + 1, j);
      }
    }
  }

  lemma LastDistance()
    ensures FirstDistance(29) + Pow2(DistanceBits(29)) == WSIZE + 1
  {
    DistanceTable(29);
    PowersOfTwo();
  }

  lemma NextDistance(i: nat)
    ensures FirstDistance(0) == 1
    ensures FirstDistance(i + 1) == FirstDistance(i) + Pow2(DistanceBits(i))
  {
  }

  lemma DistancesGrow(i: nat, j: nat)
    requires i <= j
    ensures FirstDistance(i) <= FirstDistance(j)
    decreases j
  {
    if i < j {
      DistancesGrow(i, j - 1);
    }
  }

  /**
    A match read from the stream, by the rules: extra bits of the length, a distance symbol, extra bits of the
    distance.
   */
  lemma MatchRead(s: nat, dist: seq<int>, bits: Stream, d: nat)
    requires 257 <= s <= 285 && |dist| <= 30 && d < |dist|
    requires SymbolAt(dist, Drop(bits, LengthBits(s - 257)).s) == Symbol(d) && dist[d] >= 0
    ensures var n := LengthBits(s - 257);
      var after := Drop(Drop(bits, n), dist[d]);
      ReadMatch(s, dist, bits)
      == Match(FirstLength(s - 257) + Peek(bits, n), FirstDistance(d) + Peek(after, DistanceBits(d)),
               Drop(after, DistanceBits(d)))
  {
    hide Drop, Peek, FirstLength, FirstDistance, COPY_LENGTHS, COPY_DISTANCES, LENGTH_EXTRA, DISTANCE_EXTRA;
    LengthTable(s - 257);
    DistanceTable(d);
  }

  // ---- The headers ----

  /** The order of the code length codes in section 3.2.7: the three repeats, 0, and then outwards from 8. */
  lemma BorderOrder(k: nat)
    ensures |BORDER| == 19 && BORDER[0] == 16 && BORDER[1] == 17 && BORDER[2] == 18 && BORDER[3] == 0
    ensures k < 8 ==> BORDER[4 + 2 * k] == 8 + k
    ensures k < 7 ==> BORDER[5 + 2 * k] == 7 - k
  {
  }

  /** Section 3.2.7: a length, 3 to 6 times the last one, 3 to 10 zeros, or 11 to 138 zeros. */
  lemma RepeatRead(s: nat, bits: Stream, last: int)
    ensures s < 16 ==> RepeatOf(s, bits, last) == Repeat(1, s, 0)
    ensures s == 16 ==> RepeatOf(s, bits, last) == Repeat(3 + bits.s % 4, last, 2)
    ensures s == 17 ==> RepeatOf(s, bits, last) == Repeat(3 + bits.s % 8, 0, 3)
    ensures s == 18 ==> RepeatOf(s, bits, last) == Repeat(11 + bits.s % 128, 0, 7)
  {
    PowersOfTwo();
  }

  /** Section 3.2.6: the lengths of the fixed codes. */
  lemma FixedLengths(s: nat)
    ensures s < 288 ==> FixedLit()[s] == if s <= 143 then 8 else if s <= 255 then 9 else if s <= 279 then 7 else 8
    ensures s < 30 ==> FixedDist()[s] == 5
  {
  }
}
