/** `zip_inflate`, and what does not depend on how the output is cut into calls. */
module InflateAll {
  import Digits
  import opened Bits
  import opened Deflate
  import opened BitReader
  import opened Inflate
  import opened InflateSteps

  // ---- Pieces of a run ----

  /** A run that has all the bytes asked for has not looked further. */
  lemma {:induction false} FullMeansMore(d: Decoder, n: nat)
    requires DecoderOk(d)
    ensures Run(d, n).stop.More? <==> |Run(d, n).out| == n
    decreases n
  {
    hide Next;
    if n > 0 && Next(d).Byte? {
      FullMeansMore(Next(d).next, n - 1);
    }
  }

  /** Asking for `b` bytes of a run that stops by itself: a full piece, or all that is left. */
  lemma Piece(d: Decoder, m: nat, b: nat)
    requires DecoderOk(d) && !Run(d, m).stop.More?
    ensures |Run(d, m).out| < m
    ensures b <= |Run(d, m).out| ==>
      (var r := Run(d, b); r.stop.More? && |r.out| == b && Run(d, m) == Then(r.out, Run(r.stop.d, m - b)))
    ensures b > |Run(d, m).out| ==> Run(d, b) == Run(d, m)
  {
    hide Run;
    FullMeansMore(d, m);
    FullMeansMore(d, b);
    if b <= m {
      RunSplit(d, b, m - b);
    } else {
      RunSplit(d, m, b - m);
    }
  }

  // ---- Any sequence of buffer sizes ----

  function Sum(sizes: seq<nat>): nat {
    if sizes == [] then 0 else sizes[0] + Sum(sizes[1..])
  }

  /** The bytes that calls with these buffer sizes give, one after the other; a call that fails gives none. */
  ghost function Calls(d: Decoder, sizes: seq<nat>): seq<int>
    requires DecoderOk(d)
    decreases |sizes|
  {
    if sizes == [] then []
    else
      var r := Run(d, sizes[0]);
      match r.stop
      case More(d') => r.out + Calls(d', sizes[1..])
      case Finished => r.out
      case _ => []
  }

  /** Calls without an error give what one call with a buffer for all of it gives. */
  lemma {:induction false} CallsAreOneRun(d: Decoder, sizes: seq<nat>)
    requires DecoderOk(d) && (Run(d, Sum(sizes)).stop.More? || Run(d, Sum(sizes)).stop.Finished?)
    ensures Calls(d, sizes) == Run(d, Sum(sizes)).out
    decreases |sizes|
  {
    hide Next, Run;
    if sizes == [] {
      RunNone(d);
    } else {
      RunSplit(d, sizes[0], Sum(sizes[1..]));
      var r := Run(d, sizes[0]);
      if r.stop.More? {
        CallsAreOneRun(r.stop.d, sizes[1..]);
      }
    }
  }

  lemma RunNone(d: Decoder)
    requires DecoderOk(d)
    ensures Run(d, 0).out == []
  {
  }

  /** For an error-free stream the output is the same for every sequence of buffer sizes that has room for it. */
  lemma SizesDoNotMatter(d: Decoder, n: nat, sizes: seq<nat>, sizes': seq<nat>)
    requires DecoderOk(d) && Run(d, n).stop.Finished?
    requires Sum(sizes) > |Run(d, n).out| && Sum(sizes') > |Run(d, n).out|
    ensures Calls(d, sizes) == Calls(d, sizes') == Run(d, n).out
  {
    hide Run;
    Piece(d, n, Sum(sizes));
    Piece(d, n, Sum(sizes'));
    CallsAreOneRun(d, sizes);
    CallsAreOneRun(d, sizes');
  }

  // ---- Matches ----

  /** Every byte of a match equals the output byte `distance` before it, also where the match overlaps itself. */
  lemma {:induction false} MatchOutput(d: Decoder, n: nat)
    requires DecoderOk(d) && d.block.Coded? && n <= d.block.left
    ensures var r := Run(d, n);
      && r.stop.More? && r.stop.d.hist == d.hist + r.out && r.stop.d.bits == d.bits
      && r.stop.d.block == Coded(d.block.lit, d.block.dist, d.block.left - n, d.block.distance)
      && forall i :: 0 <= i < n ==> r.out[i] == (d.hist + r.out)[|d.hist| + i - d.block.distance]
    decreases n
  {
    hide Next, DecoderOk;
    if n > 0 {
      CopyOnce(d);
      var d' := Next(d).next;
      MatchOutput(d', n - 1);
      var out, rest := Run(d, n).out, Run(d', n - 1).out;
      assert out == [Next(d).b] + rest;
      assert d.hist + out == d'.hist + rest;
      forall i | 0 <= i < n
        ensures out[i] == (d.hist + out)[|d.hist| + i - d.block.distance]
      {
        if i > 0 {
          assert out[i] == rest[i - 1];
        }
      }
    }
  }

  lemma CopyOnce(d: Decoder)
    requires DecoderOk(d) && d.block.Coded? && d.block.left > 0
    ensures 1 <= d.block.distance <= |d.hist|
    ensures Next(d) == Copying(d, d.block.lit, d.block.dist, d.block.left, d.block.distance, d.bits)
    ensures DecoderOk(Next(d).next)
  {
    hide ReadToken, CodesOk;
    NextCopy(d);
  }

  // ---- The whole stream ----

  ghost function Start(data: seq<int>, window: seq<int>): Decoder {
    Decoder(Stream(Unread(data, 0), 0), window, false, NoBlock)
  }

  /**
    The output of one call for each buffer size, until one gives less than asked for. As long as there is no error it is
    what one call would give, however it is divided; nothing is asked of the data.
   */
  method InflateInPieces(data: seq<int>, slide: array<int>, sizes: seq<nat>) returns (out: seq<int>)
    requires slide.Length == 2 * WSIZE
    modifies slide
    ensures out == Calls(Start(data, old(slide[..WSIZE])), sizes)
    ensures var run := Run(Start(data, old(slide[..WSIZE])), Sum(sizes));
      run.stop.More? || run.stop.Finished? ==> out == run.out
  {
    hide Next, Run, Unread, Calls, Sum;
    ghost var d0 := Start(data, slide[..WSIZE]);
    if Run(d0, Sum(sizes)).stop.More? || Run(d0, Sum(sizes)).stop.Finished? {
      CallsAreOneRun(d0, sizes);
    }
    var inflater := new Inflater(data, slide);
    out := [];
    var k, more := 0, true;
    while k < |sizes| && more
      invariant fresh(inflater) && fresh(inflater.bits) && fresh(inflater.win) && inflater.win.slide == slide
      invariant 0 <= k <= |sizes| && (more ==> inflater.Resting())
      invariant Calls(d0, sizes) == out + if more then Calls(inflater.Abs(), sizes[k..]) else []
    {
      FirstCall(inflater.Abs(), sizes[k..]);
      var piece;
      piece, more := CallOnce(inflater, sizes[k]);
      k := k + 1;
      ghost var rest := if more then Calls(inflater.Abs(), sizes[k..]) else [];
      Regroup(out, piece, rest);
      out := out + piece;
    }
    if more {
      assert sizes[k..] == [];
      NoCalls(inflater.Abs());
    }
  }

  /** One call with a buffer of its own, and whether another is worth while. */
  method CallOnce(inflater: Inflater, size: nat) returns (piece: seq<int>, more: bool)
    requires inflater.Resting()
    modifies inflater, inflater.bits, inflater.win, inflater.win.slide
    ensures var run := Run(old(inflater.Abs()), size);
      match run.stop
      case More(d) => more && piece == run.out && inflater.Resting() && inflater.Abs() == d
      case Finished => !more && piece == run.out
      case _ => !more && piece == []
  {
    hide Next, Run, Inflater.Abs;
    FullMeansMore(inflater.Abs(), size);
    var buff := new int[size];
    var r := inflater.Internal(buff, 0, size);
    piece := if r.Bytes? then buff[..r.n] else [];
    more := r.Bytes? && r.n == size;
  }

  lemma Regroup(a: seq<int>, b: seq<int>, c: seq<int>)
    ensures a + (b + c) == (a + b) + c && a + [] == a && [] + a == a
  {
  }

  lemma FirstCall(d: Decoder, sizes: seq<nat>)
    requires DecoderOk(d) && sizes != []
    ensures var r := Run(d, sizes[0]);
      Calls(d, sizes)
      == match r.stop
         case More(d') => r.out + Calls(d', sizes[1..])
         case Finished => r.out
         case _ => []
  {
    hide Run;
  }

  lemma NoCalls(d: Decoder)
    requires DecoderOk(d)
    ensures Calls(d, []) == []
  {
  }

  /**
    What a fixed buffer size keeps of the output: all of it, or whole buffers only when the stream ends in an error.
   */
  ghost predicate Kept(r: Ran, size: nat, out: seq<int>, threw: bool) {
    match r.stop
    case More(_) => true
    case Finished => !threw && out == r.out
    case Error(_) => !threw && size > 0 && out == r.out[..|r.out| - |r.out| % size]
    case Exception => threw
  }

  lemma WholeBuffers(out: seq<int>, got: nat, size: nat)
    requires 0 < size && got <= |out| < got + size && got % size == 0
    ensures got == |out| - |out| % size
  {
    DivMod(got, size);
    Digits.QuotientUnique(|out|, size, got / size, |out| - got);
  }

  lemma NextBuffer(got: nat, size: nat)
    requires 0 < size && got % size == 0
    ensures (got + size) % size == 0
  {
    DivMod(got, size);
    OneMore(got / size + 1, size);
    Digits.QuotientUnique(got + size, size, got / size + 1, 0);
  }

  /**
    `zip_inflate`: calls until one returns nothing. The stream has to end: a stream cut off inside a block of fixed
    codes is read as ones for ever, and those are literals.
   */
  method InflateWhole(data: seq<int>, slide: array<int>, size: nat, ghost total: nat)
      returns (out: seq<int>, threw: bool)
    requires slide.Length == 2 * WSIZE && size > 0
    requires !Run(Start(data, slide[..WSIZE]), total).stop.More?
    modifies slide
    ensures Kept(old(Run(Start(data, slide[..WSIZE]), total)), size, out, threw)
  {
    hide Next, Run, Unread;
    ghost var d0 := Start(data, slide[..WSIZE]);
    var inflater := new Inflater(data, slide);
    var buff := new int[size];
    out, threw := [], false;
    ProgressStart(d0, total);
    var i := size;
    while i > 0
      invariant fresh(inflater) && fresh(inflater.bits) && fresh(inflater.win) && fresh(buff)
      invariant inflater.win.slide == slide && buff.Length == size && 0 <= i && !threw
      invariant i > 0 ==> inflater.Resting() && Progress(d0, total, out, inflater.Abs())
      invariant i > 0 ==> |out| % size == 0 || Next(inflater.Abs()).End?
      invariant i == 0 ==> Kept(Run(d0, total), size, out, threw)
      decreases total - |out|, i
    {
      ghost var d := inflater.Abs();
      ghost var left := Run(d, total - |out|);
      OneCall(d0, total, out, d, size);
      var r := inflater.Internal(buff, 0, size);
      match r {
        case Thrown =>
          threw := true;
          return;
        case Minus1 =>
          i := 0;
        case Bytes(n) =>
          i := n;
          out := out + buff[..i];
      }
    }
  }

  /** What the next call does, as the loop sees it. */
  lemma OneCall(d0: Decoder, total: nat, out: seq<int>, d: Decoder, size: nat)
    requires size > 0 && Progress(d0, total, out, d) && !Run(d0, total).stop.More?
    requires |out| % size == 0 || Next(d).End?
    ensures var r := Run(d, size);
      && (r.stop.More? ==> Progress(d0, total, out + r.out, r.stop.d) && |out + r.out| % size == 0)
      && (r.stop.Finished? ==> Run(d0, total) == Ran(out + r.out, Finished))
      && (r.stop.Finished? ==> forall d' :: DecoderOk(d') && Next(d').End? ==> Progress(d0, total, out + r.out, d'))
      && (r.stop.Error? ==> Kept(Run(d0, total), size, out, false))
      && (r.stop.Exception? ==> Run(d0, total).stop.Exception?)
  {
    hide Next, Run, Progress, Kept;
    LeftToCall(d0, total, out, d, size);
    FullMeansMore(d, size);
    var r := Run(d, size);
    if r.stop.More? {
      FullCall(d0, total, out, d, size);
    } else if r.stop.Finished? {
      LastCall(d0, total, out, d, size);
    } else {
      FailedCall(d0, total, out, d, size);
    }
  }

  /** What is left of the run, and what the next call sees of it. */
  lemma LeftToCall(d0: Decoder, total: nat, out: seq<int>, d: Decoder, size: nat)
    requires size > 0 && Progress(d0, total, out, d) && !Run(d0, total).stop.More?
    ensures DecoderOk(d) && |out| <= total
    ensures var m := total - |out|;
      var left, r := Run(d, m), Run(d, size);
      && Run(d0, total) == Then(out, left) && !left.stop.More? && |left.out| < m
      && (r.stop.More? ==> size <= m && left == Then(r.out, Run(r.stop.d, m - size)))
      && (!r.stop.More? ==> r == left && |left.out| < size)
  {
    hide Next, Run;
    ProgressFails(d0, total, out, d);
    Piece(d, total - |out|, size);
    FullMeansMore(d, size);
  }

  lemma FullCall(d0: Decoder, total: nat, out: seq<int>, d: Decoder, size: nat)
    requires size > 0 && Progress(d0, total, out, d) && !Run(d0, total).stop.More?
    requires |out| % size == 0 || Next(d).End?
    requires Run(d, size).stop.More? && |Run(d, size).out| == size
    ensures var r := Run(d, size); Progress(d0, total, out + r.out, r.stop.d) && |out + r.out| % size == 0
  {
    hide Next, Run;
    LeftToCall(d0, total, out, d, size);
    var r := Run(d, size);
    if Next(d).End? {
      EndsNow(d, size);
    }
    ThenThen(out, r.out, Run(r.stop.d, total - |out| - size));
    NextBuffer(|out|, size);
  }

  lemma LastCall(d0: Decoder, total: nat, out: seq<int>, d: Decoder, size: nat)
    requires size > 0 && Progress(d0, total, out, d) && !Run(d0, total).stop.More?
    requires Run(d, size).stop.Finished?
    ensures var r := Run(d, size);
      && Run(d0, total) == Ran(out + r.out, Finished)
      && forall d' :: DecoderOk(d') && Next(d').End? ==> Progress(d0, total, out + r.out, d')
  {
    hide Next, Run;
    LeftToCall(d0, total, out, d, size);
    var r := Run(d, size);
    forall d' | DecoderOk(d') && Next(d').End?
      ensures Progress(d0, total, out + r.out, d')
    {
      EndsNow(d', total - |out + r.out|);
      assert (out + r.out) + [] == out + r.out;
    }
  }

  lemma FailedCall(d0: Decoder, total: nat, out: seq<int>, d: Decoder, size: nat)
    requires size > 0 && Progress(d0, total, out, d) && !Run(d0, total).stop.More?
    requires |out| % size == 0 || Next(d).End?
    requires Run(d, size).stop.Error? || Run(d, size).stop.Exception?
    ensures Run(d, size).stop.Error? ==> Kept(Run(d0, total), size, out, false)
    ensures Run(d, size).stop.Exception? ==> Run(d0, total).stop.Exception?
  {
    hide Next, Run;
    LeftToCall(d0, total, out, d, size);
    var left := Run(d, total - |out|);
    if Next(d).End? {
      EndsNow(d, size);
    }
    if left.stop.Error? {
      WholeBuffers(out + left.out, |out|, size);
      assert (out + left.out)[..|out|] == out;
    }
  }

  lemma EndsNow(d: Decoder, n: nat)
    requires DecoderOk(d) && Next(d).End? && n > 0
    ensures Run(d, n) == Ran([], Finished)
  {
    hide Next;
  }
}
