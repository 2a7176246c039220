/** The sliding window: a ring of 32768 bytes in which a match is copied from up to 32768 bytes back. */
module SlidingWindow {
  import opened Deflate

  /** The byte put `d` bytes ago is `d` places back in the ring. */
  ghost predicate Ring(s: seq<int>, wp: int, hist: seq<int>) {
    && |s| >= WSIZE && |hist| >= WSIZE
    && forall d {:trigger Back(hist, d)} :: 1 <= d <= WSIZE ==> s[(wp - d) % WSIZE] == Back(hist, d)
  }

  lemma RingIndex(wp: int, d: int)
    requires 0 <= wp < WSIZE && 2 <= d <= WSIZE
    ensures (wp + 1 - d) % WSIZE == (wp - (d - 1)) % WSIZE != wp
  {
    if wp >= d - 1 {
      assert (wp - (d - 1)) % WSIZE == wp - (d - 1);
    } else {
      assert (wp - (d - 1)) % WSIZE == wp - (d - 1) + WSIZE;
    }
  }

  /** Masking the write position does not matter. */
  lemma RingMasked(s: seq<int>, wp: int, hist: seq<int>)
    requires Ring(s, wp, hist)
    ensures Ring(s, wp % WSIZE, hist)
  {
    forall d {:trigger Back(hist, d)} | 1 <= d <= WSIZE
      ensures s[(wp % WSIZE - d) % WSIZE] == Back(hist, d)
    {
      assert (wp % WSIZE - d) % WSIZE == (wp - d) % WSIZE;
    }
  }

  lemma RingPut(s: seq<int>, wp: int, hist: seq<int>, b: int)
    requires Ring(s, wp, hist) && 0 <= wp < WSIZE
    ensures Ring(s[wp := b], wp + 1, hist + [b])
  {
    forall d {:trigger Back(hist + [b], d)} | 1 <= d <= WSIZE
      ensures s[wp := b][(wp + 1 - d) % WSIZE] == Back(hist + [b], d)
    {
      if d > 1 {
        RingIndex(wp, d);
        assert Back(hist + [b], d) == Back(hist, d - 1);
      }
    }
  }

  /** The read index `at` is `distance` behind the write index, up to the mask. */
  ghost predicate Lags(at: int, wp: int, distance: int) {
    1 <= distance <= WSIZE && at % WSIZE == (wp - distance) % WSIZE
  }

  lemma LagRange(at: int, wp: int, distance: int)
    requires Lags(at, wp, distance)
    ensures 1 <= distance <= WSIZE
  {
  }

  lemma LagStart(wp: int, distance: int)
    requires 1 <= distance <= WSIZE
    ensures Lags(wp - distance, wp, distance)
  {
  }

  lemma LagMasked(at: int, wp: int, distance: int)
    requires Lags(at, wp, distance)
    ensures Lags(at % WSIZE, wp, distance)
  {
  }

  lemma LagStep(at: int, wp: int, wp': int, distance: int)
    requires Lags(at, wp, distance) && wp' % WSIZE == (wp + 1) % WSIZE
    ensures Lags(at + 1, wp', distance)
  {
    var k := (at - (wp - distance)) / WSIZE;
    assert at + 1 == (wp + 1 - distance) + k * WSIZE;
    var m := (wp' - (wp + 1)) / WSIZE;
    assert wp' == wp + 1 + m * WSIZE;
    assert at + 1 == (wp' - distance) + (k - m) * WSIZE;
  }

  class Window {
    const slide: array<int>
    var wp: nat
    /** Everything ever put into the window, after what it held at first. */
    ghost var hist: seq<int>

    /** `zip_inflate_start`: the contents of the window are left as they are. */
    constructor (slide: array<int>)
      requires slide.Length == 2 * WSIZE
      ensures Valid() && fresh(this) && this.slide == slide && |hist| == WSIZE && hist == slide[..WSIZE]
    {
      this.slide := slide;
      wp := 0;
      hist := slide[..WSIZE];
    }

    ghost predicate Valid()
      reads this, slide
    {
      slide.Length == 2 * WSIZE && wp <= WSIZE && Ring(slide[..], wp, hist)
    }

    /** `zip_wp &= zip_WSIZE - 1; zip_slide[zip_wp++] = b`. */
    method Put(b: int)
      requires Valid()
      modifies this, slide
      ensures Valid() && hist == old(hist) + [b] && wp % WSIZE == (old(wp) + 1) % WSIZE
    {
      hide Ring;
      RingMasked(slide[..], wp, hist);
      wp := wp % WSIZE;
      RingPut(slide[..], wp, hist, b);
      slide[wp] := b;
      wp := wp + 1;
      hist := hist + [b];
    }

    /** A masked index that lags `distance` behind the write position finds the byte `distance` back. */
    method Get(at: int, ghost distance: nat) returns (b: int)
      requires Valid() && Lags(at, wp, distance)
      ensures b == Back(hist, distance)
    {
      assert slide[(wp - distance) % WSIZE] == Back(hist, distance);
      b := slide[at % WSIZE];
    }
  }
}
