/** The encoder's size arithmetic (mul-encoder.c:238-271, 407-454): the
    requested buffer size is moved to a multiple of the coding unit, the file
    size is padded up to a multiple of the unit and of the buffer size, and
    the padded size is cut into read-ins and blocks. */
module Sizing {
  import opened Grid
  import opened Primes
  import opened Params
  import opened ForwardCoupling

  // ---------------------------------------------------------------------
  // Multiples

  /** The least multiple of d that is at least x. */
  function RoundUp(x: nat, d: nat): (r: nat)
    requires d > 0
    ensures r % d == 0 && x <= r < x + d
  {
    if x % d == 0 then x
    else
      DivMod(x, d);
      ModUnique(x - x % d + d, d, x / d + 1, 0);
      x - x % d + d
  }

  /** The greatest multiple of d that is at most x. */
  function RoundDown(x: nat, d: nat): (r: nat)
    requires d > 0
    ensures r % d == 0 && x - d < r <= x
  {
    DivMod(x, d);
    ModUnique(x - x % d, d, x / d, 0);
    x - x % d
  }

  /** No multiple of d lies strictly between RoundDown(x, d) and
      RoundUp(x, d): RoundUp is the least multiple at or above x, RoundDown
      the greatest at or below. */
  lemma NoMultipleBetween(x: nat, d: nat, y: nat)
    requires d > 0 && y % d == 0
    ensures y >= x ==> y >= RoundUp(x, d)
    ensures y <= x ==> y <= RoundDown(x, d)
  {
    DivMod(x, d);
    DivMod(y, d);
    var q, p := x / d, y / d;
    if p <= q {
      MulMonotone(p, q, d);
    } else {
      MulMonotone(q + 1, p, d);
      assert (q + 1) * d == q * d + d;
    }
  }

  /** The multiple of d nearest to x, the upper one on a tie. */
  function Nearest(x: nat, d: nat): (r: nat)
    requires d > 0
    ensures r % d == 0
  {
    if RoundUp(x, d) - x <= x - RoundDown(x, d) then RoundUp(x, d) else RoundDown(x, d)
  }

  /** No multiple of d is nearer to x than Nearest(x, d), and one as near is
      not above it. */
  lemma NearestIsNearest(x: nat, d: nat, y: nat)
    requires d > 0 && y % d == 0
    ensures Distance(Nearest(x, d), x) <= Distance(y, x)
    ensures Distance(Nearest(x, d), x) == Distance(y, x) ==> y <= Nearest(x, d)
  {
    NoMultipleBetween(x, d, y);
  }

  function Distance(a: int, b: int): nat {
    if a <= b then b - a else a - b
  }

  /** A multiple of a multiple of u is a multiple of u. */
  lemma MultipleOfMultiple(y: nat, b: nat, u: nat)
    requires b > 0 && u > 0 && b % u == 0 && y % b == 0
    ensures y % u == 0
  {
    DivMod(y, b);
    DividesTransitive(y, b, y / b, u);
  }

  // ---------------------------------------------------------------------
  // The requested buffer size

  /** sizeof(long) * w * k * packetsize, or sizeof(long) * w * k when no
      packet size is given: the amount the buffer and the padded file size
      must be a multiple of. */
  function Unit(k: nat, w: nat, packetsize: nat): (u: nat)
    requires k > 0 && w > 0
    ensures u > 0
  {
    MulMonotone(1, w, k);
    MulMonotone(1, w * k, WordBytes);
    MulMonotone(1, packetsize, WordBytes * w * k);
    if packetsize != 0 then WordBytes * w * k * packetsize else WordBytes * w * k
  }

  /** The buffersize rounding of the encoder.  With a packet size, only `up`
      moves, so a buffer size that is not a multiple of the unit goes up to
      the next multiple; without one, `up` and `down` move together and the
      nearer multiple wins, `up` on a tie, and the result may be 0. */
  method RoundBuffersize(k: nat, w: nat, packetsize: nat, buffersize: nat) returns (r: int)
    requires k > 0 && w > 0
    ensures buffersize == 0 || buffersize % Unit(k, w, packetsize) == 0 ==> r == buffersize
    ensures buffersize != 0 && buffersize % Unit(k, w, packetsize) != 0 && packetsize != 0 ==>
              r == RoundUp(buffersize, Unit(k, w, packetsize))
    ensures buffersize != 0 && buffersize % Unit(k, w, packetsize) != 0 && packetsize == 0 ==>
              r == Nearest(buffersize, Unit(k, w, packetsize))
  {
    r := buffersize;
    var u := Unit(k, w, packetsize);
    if buffersize != 0 {
      if packetsize != 0 && buffersize % u != 0 {
        var up, down := buffersize, buffersize;
        while up % u != 0 && down % u != 0
          invariant buffersize <= up <= RoundUp(buffersize, u)
          invariant down == buffersize
          decreases RoundUp(buffersize, u) - up
        {
          up := up + 1;
          if down == 0 {
            down := down - 1;
          }
        }
        if up % u == 0 {
          r := up;
          NoMultipleBetween(buffersize, u, up);
        } else if down != 0 {
          r := down;
        }
      } else if packetsize == 0 && buffersize % u != 0 {
        var up, down := buffersize, buffersize;
        while up % u != 0 && down % u != 0
          invariant buffersize <= up <= RoundUp(buffersize, u)
          invariant RoundDown(buffersize, u) <= down <= buffersize
          invariant up - buffersize == buffersize - down
          decreases RoundUp(buffersize, u) - up
        {
          up := up + 1;
          down := down - 1;
        }
        if up % u == 0 {
          r := up;
          NoMultipleBetween(buffersize, u, up);
        } else {
          r := down;
          NoMultipleBetween(buffersize, u, down);
        }
      }
    }
  }

  /** A rounded buffer size is 0 or a multiple of the unit. */
  predicate UnitBuffer(k: nat, w: nat, packetsize: nat, buffersize: int)
    requires k > 0 && w > 0
  {
    buffersize >= 0 && (buffersize == 0 || buffersize % Unit(k, w, packetsize) == 0)
  }

  /** Whatever buffer size is asked for, the rounded one is 0 or a multiple
      of the unit, and it is 0 only when the request was 0 or, without a
      packet size, below half the unit. */
  lemma RoundedBufferIsUnit(k: nat, w: nat, packetsize: nat, buffersize: nat, r: int)
    requires k > 0 && w > 0
    requires buffersize == 0 || buffersize % Unit(k, w, packetsize) == 0 ==> r == buffersize
    requires buffersize != 0 && buffersize % Unit(k, w, packetsize) != 0 && packetsize != 0 ==>
               r == RoundUp(buffersize, Unit(k, w, packetsize))
    requires buffersize != 0 && buffersize % Unit(k, w, packetsize) != 0 && packetsize == 0 ==>
               r == Nearest(buffersize, Unit(k, w, packetsize))
    ensures UnitBuffer(k, w, packetsize, r)
    ensures r == 0 ==> buffersize == 0 || (packetsize == 0 && 2 * buffersize < Unit(k, w, packetsize))
  {
    var u := Unit(k, w, packetsize);
    if buffersize != 0 && buffersize % u != 0 && packetsize == 0 && r == 0 {
      assert RoundUp(buffersize, u) > buffersize;
      assert RoundDown(buffersize, u) == 0;
    }
  }

  // ---------------------------------------------------------------------
  // The padded file size

  /** The loop `while (x % d != 0) x++`. */
  method RaiseToMultiple(x: nat, d: nat) returns (n: nat)
    requires d > 0
    ensures n == RoundUp(x, d)
  {
    n := x;
    while n % d != 0
      invariant x <= n <= RoundUp(x, d)
      decreases RoundUp(x, d) - n
    {
      n := n + 1;
    }
    NoMultipleBetween(x, d, n);
  }

  /** newsize: the file size raised to a multiple of the unit
      (k * w * packetsize * sizeof(long), or k * w * sizeof(long)), then to a
      multiple of the buffer size when there is one. */
  method NewSize(size: nat, k: nat, w: nat, packetsize: nat, buffersize: nat) returns (newsize: nat)
    requires k > 0 && w > 0
    ensures newsize == if buffersize != 0 then RoundUp(RoundUp(size, Unit(k, w, packetsize)), buffersize)
                       else RoundUp(size, Unit(k, w, packetsize))
  {
    newsize := size;
    var u := Unit(k, w, packetsize);
    if packetsize != 0 {
      if size % u != 0 {
        newsize := RaiseToMultiple(newsize, u);
      }
    } else {
      if size % u != 0 {
        newsize := RaiseToMultiple(newsize, u);
      }
    }
    if buffersize != 0 {
      newsize := RaiseToMultiple(newsize, buffersize);
    }
  }

  /** With a buffer size rounded to the unit, newsize is the least multiple
      of the buffer (or, without one, of the unit) that holds the file, and
      it is a whole number of stripes of Layers * k blocks. */
  lemma PaddedSize(size: nat, k: nat, w: nat, packetsize: nat, buffersize: nat)
    requires k > 0 && w > 0 && UnitBuffer(k, w, packetsize, buffersize)
    ensures buffersize != 0 ==>
              RoundUp(RoundUp(size, Unit(k, w, packetsize)), buffersize) == RoundUp(size, buffersize)
    ensures RoundUp(size, Unit(k, w, packetsize)) % (Layers * k) == 0
    ensures buffersize != 0 ==> RoundUp(size, buffersize) % (Layers * k) == 0
  {
    var u := Unit(k, w, packetsize);
    UnitOfStripes(k, w, packetsize);
    MultipleOfMultiple(RoundUp(size, u), u, Layers * k);
    if buffersize != 0 {
      RoundUpTwice(size, u, buffersize);
      MultipleOfMultiple(buffersize, u, Layers * k);
      MultipleOfMultiple(RoundUp(size, buffersize), buffersize, Layers * k);
    }
  }

  /** Raising to a multiple of u and then of b, itself a multiple of u, is
      raising to a multiple of b. */
  lemma RoundUpTwice(x: nat, u: nat, b: nat)
    requires u > 0 && b > 0 && b % u == 0
    ensures RoundUp(RoundUp(x, u), b) == RoundUp(x, b)
  {
    var r1 := RoundUp(x, u);
    var r2 := RoundUp(r1, b);
    var r := RoundUp(x, b);
    NoMultipleBetween(x, b, r2);
    MultipleOfMultiple(r, b, u);
    NoMultipleBetween(x, u, r);
    NoMultipleBetween(r1, b, r);
  }

  /** The unit is a multiple of Layers * k: sizeof(long) and Layers are
      both 8. */
  lemma UnitOfStripes(k: nat, w: nat, packetsize: nat)
    requires k > 0 && w > 0
    ensures Layers * k > 0 && Unit(k, w, packetsize) % (Layers * k) == 0
  {
    var c := if packetsize != 0 then w * packetsize else w;
    assert Unit(k, w, packetsize) == c * (Layers * k);
    ModUnique(Unit(k, w, packetsize), Layers * k, c, 0);
  }

  // ---------------------------------------------------------------------
  // Read-ins and blocks

  /** How the padded file is read: `readins` reads into a buffer of
      `bufferLength` bytes, each asking for `readLength` bytes, and each read
      cut into layers of k blocks of `blocksize` bytes. */
  datatype ReadPlan = ReadPlan(readins: nat, blocksize: nat, bufferLength: nat, readLength: nat)

  /** The plan of the encoder (mul-encoder.c:432-454).  stripe_size =
      newsize / M and blocksize = stripe_size / k come first; a buffer size
      below the file size then replaces the block size by buffersize / k. */
  function EncoderPlan(size: nat, newsize: nat, buffersize: nat, k: nat): (p: ReadPlan)
    requires k > 0
    ensures p.readins >= 1 || (buffersize != 0 && newsize < buffersize)
    ensures buffersize == 0 || newsize % buffersize == 0 ==> p.readins * p.bufferLength == newsize
  {
    if size > buffersize && buffersize != 0 then
      DivMod(newsize, buffersize);
      ReadPlan(newsize / buffersize, buffersize / k, buffersize, buffersize)
    else
      ReadPlan(1, newsize / Layers / k, newsize, size)
  }

  /** x / a / b is x / (a * b), and exact when x is a multiple of a * b. */
  lemma DivideTwice(x: nat, a: nat, b: nat)
    requires a > 0 && b > 0 && x % (a * b) == 0
    ensures a * b > 0 && x / a / b * (a * b) == x
  {
    MulMonotone(1, a, b);
    DivMod(x, a * b);
    var q := x / (a * b);
    assert x == (q * b) * a;
    ModUnique(x, a, q * b, 0);
    ModUnique(q * b, b, q, 0);
  }

  /** Without a smaller buffer the whole padded file is one read-in of
      exactly Layers * k blocks. */
  lemma WholeFilePlanFits(size: nat, newsize: nat, buffersize: nat, k: nat)
    requires k > 0 && !(size > buffersize && buffersize != 0)
    requires newsize % (Layers * k) == 0
    ensures EncoderPlan(size, newsize, buffersize, k).readins == 1
    ensures Layers * k * EncoderPlan(size, newsize, buffersize, k).blocksize ==
              EncoderPlan(size, newsize, buffersize, k).bufferLength == newsize
  {
    DivideTwice(newsize, Layers, k);
  }

  /** With a buffer smaller than the file, the encoder's block size is
      buffersize / k, so the Layers layers of k blocks each span Layers
      times the buffer. */
  lemma EncoderPlanOverruns(size: nat, newsize: nat, buffersize: nat, k: nat)
    requires k > 0 && size > buffersize > 0 && buffersize % k == 0
    ensures Layers * k * EncoderPlan(size, newsize, buffersize, k).blocksize ==
              Layers * EncoderPlan(size, newsize, buffersize, k).bufferLength
    ensures Layers * k * EncoderPlan(size, newsize, buffersize, k).blocksize >
              EncoderPlan(size, newsize, buffersize, k).bufferLength
  {
    DivMod(buffersize, k);
  }

  /** One instance: k = 10, w = 8, no packet size, a 1000-byte file and a
      640-byte buffer (already a multiple of the unit 640).  The split reads
      5120 bytes of a 640-byte buffer. */
  lemma EncoderPlanOverrunExample()
    ensures Unit(10, 8, 0) == 640
    ensures EncoderPlan(1000, 1280, 640, 10).blocksize == 64
    ensures Layers * 10 * EncoderPlan(1000, 1280, 640, 10).blocksize == 5120
  {
  }

  /** The plan with the block size the decoder uses for the same buffer,
      buffersize / k / M (clay-decoder.c:264).  Only the block size of
      the buffered case differs from the encoder's plan. */
  function FixedPlan(size: nat, newsize: nat, buffersize: nat, k: nat): (p: ReadPlan)
    requires k > 0
    ensures p.readins >= 1 || (buffersize != 0 && newsize < buffersize)
    ensures buffersize == 0 || newsize % buffersize == 0 ==> p.readins * p.bufferLength == newsize
    ensures p.readins == EncoderPlan(size, newsize, buffersize, k).readins
    ensures p.bufferLength == EncoderPlan(size, newsize, buffersize, k).bufferLength
    ensures p.readLength == EncoderPlan(size, newsize, buffersize, k).readLength
    ensures size > buffersize && buffersize != 0 ==>
              p.blocksize == EncoderPlan(size, newsize, buffersize, k).blocksize / Layers
    ensures !(size > buffersize && buffersize != 0) ==> p == EncoderPlan(size, newsize, buffersize, k)
  {
    var e := EncoderPlan(size, newsize, buffersize, k);
    if size > buffersize && buffersize != 0 then e.(blocksize := buffersize / k / Layers) else e
  }

  /** The fixed plan's layers fit in the buffer, and fill it exactly when the
      buffer is a multiple of the unit. */
  lemma FixedPlanFits(size: nat, newsize: nat, buffersize: nat, k: nat)
    requires k > 0 && newsize % (Layers * k) == 0
    requires size > buffersize && buffersize != 0 ==> buffersize % (Layers * k) == 0
    ensures Layers * k * FixedPlan(size, newsize, buffersize, k).blocksize ==
              FixedPlan(size, newsize, buffersize, k).bufferLength
  {
    if size > buffersize && buffersize != 0 {
      DivMod(buffersize, k);
      var q := buffersize / (Layers * k);
      DivMod(buffersize, Layers * k);
      assert buffersize == (q * Layers) * k;
      ModUnique(buffersize, k, q * Layers, 0);
      ModUnique(q * Layers, Layers, q, 0);
    } else {
      DivideTwice(newsize, Layers, k);
    }
  }
}
