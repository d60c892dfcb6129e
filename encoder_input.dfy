/** How the encoder fills its read buffer and cuts it into the layer grid
    (mul-encoder.c:566-579, 596-600, 655-656).  Each read-in asks the file
    for `buffersize` bytes; a read that reaches past the end of the file is
    padded with the character '0', and the buffer is then cut into Layers
    layers of k blocks of `blocksize` bytes. */
module EncoderInput {
  import opened Gf
  import opened Grid
  import opened ForwardCoupling

  /** The padding byte: the character '0'. */
  const Pad: Byte := 0x30

  function Pads(n: nat): (r: seq<Byte>)
    ensures |r| == n && forall x :: 0 <= x < n ==> r[x] == Pad
  {
    seq(n, x => Pad)
  }

  // ---------------------------------------------------------------------
  // One read-in

  /** The buffer after one read-in, given the bytes `got` the read returned:
      a read that fits before the end of the file stores them; one that
      reaches past it stores them and pads the rest of the buffer; once the
      whole file has been read the buffer is all padding. */
  function ReadInBlock(old_: seq<Byte>, total: int, size: int, buffersize: nat, got: seq<Byte>): seq<Byte>
    requires buffersize <= |old_| && |got| <= buffersize
  {
    if total < size && total + buffersize <= size then got + old_[|got|..]
    else if total < size then got + Pads(buffersize - |got|) + old_[buffersize..]
    else if total == size then Pads(buffersize) + old_[buffersize..]
    else old_
  }

  /** The running total after one read-in: only a read that fits before the
      end of the file is counted. */
  function ReadInTotal(total: int, size: int, buffersize: nat, got: seq<Byte>): int {
    if total < size && total + buffersize <= size then total + |got| else total
  }

  /** The bytes read come first; a read past the end of the file leaves the
      rest of the buffer '0' from the first byte not read; when the file is
      used up the whole buffer is '0'; bytes past the buffer size are never
      touched. */
  lemma ReadInContents(old_: seq<Byte>, total: int, size: int, buffersize: nat, got: seq<Byte>)
    requires buffersize <= |old_| && |got| <= buffersize
    ensures |ReadInBlock(old_, total, size, buffersize, got)| == |old_|
    ensures total < size ==> ReadInBlock(old_, total, size, buffersize, got)[..|got|] == got
    ensures total < size < total + buffersize ==>
              forall x :: |got| <= x < buffersize ==> ReadInBlock(old_, total, size, buffersize, got)[x] == Pad
    ensures total == size ==>
              forall x :: 0 <= x < buffersize ==> ReadInBlock(old_, total, size, buffersize, got)[x] == Pad
    ensures ReadInBlock(old_, total, size, buffersize, got)[buffersize..] == old_[buffersize..]
  {
    var r := ReadInBlock(old_, total, size, buffersize, got);
    if total < size && total + buffersize <= size {
      assert r[buffersize..] == old_[buffersize..] by {
        assert r == got + old_[|got|..];
      }
    }
  }

  /** The running total never passes the file size and never goes back. */
  lemma ReadInTotalBounded(total: int, size: int, buffersize: nat, got: seq<Byte>)
    requires |got| <= buffersize && total <= size
    ensures total <= ReadInTotal(total, size, buffersize, got) <= size
  {
  }

  /** fread into the front of the buffer. */
  method Store(block: array<Byte>, got: seq<Byte>)
    requires |got| <= block.Length
    modifies block
    ensures block[..] == got + old(block[|got|..])
  {
    var x := 0;
    while x < |got|
      invariant 0 <= x <= |got|
      invariant forall t :: 0 <= t < x ==> block[t] == got[t]
      invariant forall t :: x <= t < block.Length ==> block[t] == old(block[t])
    {
      block[x] := got[x];
      x := x + 1;
    }
    assert block[..] == got + old(block[|got|..]);
  }

  /** The padding loop: bytes from .. to - 1 become '0'. */
  method Fill(block: array<Byte>, from: nat, to: nat)
    requires from <= to <= block.Length
    modifies block
    ensures block[..] == old(block[..from]) + Pads(to - from) + old(block[to..])
  {
    var x := from;
    while x < to
      invariant from <= x <= to
      invariant block[..] == old(block[..from]) + Pads(x - from) + old(block[x..])
    {
      block[x] := Pad;
      x := x + 1;
      assert Pads(x - from) == Pads(x - 1 - from) + [Pad];
    }
  }

  /** One read-in of the encoder's loop, given the bytes the read returns. */
  method ReadIn(block: array<Byte>, total: int, size: int, buffersize: nat, got: seq<Byte>)
    returns (newTotal: int)
    requires buffersize <= block.Length && |got| <= buffersize
    modifies block
    ensures block[..] == ReadInBlock(old(block[..]), total, size, buffersize, got)
    ensures newTotal == ReadInTotal(total, size, buffersize, got)
  {
    newTotal := total;
    if total < size && total + buffersize <= size {
      Store(block, got);
      newTotal := total + |got|;
    } else if total < size && total + buffersize > size {
      Store(block, got);
      ghost var stored := block[..];
      Fill(block, |got|, buffersize);
      assert block[..] == got + Pads(buffersize - |got|) + old(block[buffersize..]) by {
        assert stored[..|got|] == got;
        assert stored[buffersize..] == old(block[buffersize..]);
      }
    } else if total == size {
      Fill(block, 0, buffersize);
    }
  }

  // ---------------------------------------------------------------------
  // The layer split

  /** A flat buffer of `cols` blocks of `bs` bytes, as the layer of its
      blocks. */
  function Columns(x: seq<Byte>, cols: nat, bs: nat): (l: Layer)
    requires |x| == cols * bs
    ensures ShapedLayer(l, cols, bs)
    decreases cols
  {
    if cols == 0 then []
    else
      assert cols * bs == (cols - 1) * bs + bs;
      var l := [x[..bs]] + Columns(x[bs..], cols - 1, bs);
      assert l[1..] == Columns(x[bs..], cols - 1, bs);
      l
  }

  /** Flattening the cut layer gives the buffer back. */
  lemma {:induction false} FlattenOfColumns(x: seq<Byte>, cols: nat, bs: nat)
    requires |x| == cols * bs
    ensures Flatten(Columns(x, cols, bs)) == x
    decreases cols
  {
    if cols > 0 {
      assert cols * bs == (cols - 1) * bs + bs;
      var l := Columns(x, cols, bs);
      FlattenOfColumns(x[bs..], cols - 1, bs);
      assert l[1..] == Columns(x[bs..], cols - 1, bs);
      assert x == x[..bs] + x[bs..];
    }
  }

  /** Cutting a flattened layer gives the layer back. */
  lemma {:induction false} ColumnsOfFlatten(l: Layer, cols: nat, bs: nat)
    requires ShapedLayer(l, cols, bs)
    ensures |Flatten(l)| == cols * bs && Columns(Flatten(l), cols, bs) == l
    decreases cols
  {
    FlattenLength(l, cols, bs);
    if cols > 0 {
      ColumnsOfFlatten(l[1..], cols - 1, bs);
      assert Flatten(l)[..bs] == l[0] && Flatten(l)[bs..] == Flatten(l[1..]);
    }
  }

  /** Block c of the layer is bytes o .. o + bs - 1 of the buffer, where
      o = c * bs. */
  lemma {:induction false} ColumnCell(x: seq<Byte>, cols: nat, bs: nat, c: nat, o: nat)
    requires |x| == cols * bs && c < cols && o == c * bs
    ensures o + bs <= |x| && Columns(x, cols, bs)[c] == x[o..o + bs]
    decreases c
  {
    var rest := ColumnsUnfold(x, cols, bs);
    if c > 0 {
      ColumnCell(rest, cols - 1, bs, c - 1, o - bs);
      assert rest[o - bs..o] == x[o..o + bs];
    }
  }

  /** The first block and the remaining ones. */
  lemma ColumnsUnfold(x: seq<Byte>, cols: nat, bs: nat) returns (rest: seq<Byte>)
    requires |x| == cols * bs && cols > 0
    ensures bs <= |x| && rest == x[bs..] && |rest| == (cols - 1) * bs
    ensures Columns(x, cols, bs)[0] == x[..bs]
    ensures Columns(x, cols, bs)[1..] == Columns(rest, cols - 1, bs)
  {
    assert cols * bs == (cols - 1) * bs + bs;
    rest := x[bs..];
  }

  /** Bytes j * k * bs .. (j + 1) * k * bs - 1 of the buffer: layer j. */
  function LayerBytes(block: seq<Byte>, k: nat, bs: nat, j: nat): (r: seq<Byte>)
    requires j < Layers && Layers * k * bs <= |block|
    ensures |r| == k * bs
  {
    MulMonotone(j + 1, Layers, k * bs);
    assert (j + 1) * (k * bs) == j * (k * bs) + k * bs;
    block[j * (k * bs)..(j + 1) * (k * bs)]
  }

  /** The layer grid the encoder cuts from its buffer. */
  function Split(block: seq<Byte>, k: nat, bs: nat): (g: seq<Layer>)
    requires Layers * k * bs <= |block|
    ensures |g| == Layers && Shaped(g, k, bs)
  {
    seq(Layers, j requires 0 <= j < Layers => Columns(LayerBytes(block, k, bs, j), k, bs))
  }

  /** The copy of the buffer into fdata, layer by layer. */
  method SplitLayers(block: array<Byte>, k: nat, bs: nat, fdata: array<Layer>)
    requires fdata.Length == Layers && Layers * k * bs <= block.Length
    requires block as object != fdata
    modifies fdata
    ensures fdata[..] == Split(block[..], k, bs)
  {
    var buf := block[..];
    ghost var g := Split(buf, k, bs);
    var j := 0;
    while j < Layers
      invariant 0 <= j <= Layers
      invariant forall t :: 0 <= t < j ==> fdata[t] == g[t]
      invariant block[..] == buf
    {
      var layer := Columns(LayerBytes(buf, k, bs, j), k, bs);
      assert layer == g[j];
      fdata[j] := layer;
      j := j + 1;
    }
    assert |fdata[..]| == |g| == Layers;
    assert forall t :: 0 <= t < Layers ==> fdata[..][t] == g[t];
    assert block[..] == buf;
  }

  /** Layer j of the grid holds bytes j * k * bs .. (j + 1) * k * bs - 1 of
      the buffer. */
  lemma SplitLayer(block: seq<Byte>, k: nat, bs: nat, j: nat)
    requires Layers * k * bs <= |block| && j < Layers
    ensures Flatten(Split(block, k, bs)[j]) == LayerBytes(block, k, bs, j)
  {
    FlattenOfColumns(LayerBytes(block, k, bs, j), k, bs);
  }

  /** Block i of layer j is the bs bytes from o = (j * k + i) * bs, where
      the encoder points data[i]. */
  lemma SplitCell(block: seq<Byte>, k: nat, bs: nat, j: nat, i: nat, o: nat)
    requires Layers * k * bs <= |block| && j < Layers && i < k && o == (j * k + i) * bs
    ensures o + bs <= |block| && Split(block, k, bs)[j][i] == block[o..o + bs]
  {
    var x := LayerBytes(block, k, bs, j);
    var base := LayerStart(block, k, bs, j);
    var off := i * bs;
    Distribute(j, k, i, bs);
    ColumnCell(x, k, bs, i, off);
    SliceOfSlice(block, base, base + k * bs, off, bs);
  }

  /** A slice of a slice is a slice. */
  lemma SliceOfSlice(s: seq<Byte>, a: nat, b: nat, c: nat, d: nat)
    requires a <= b <= |s| && c + d <= b - a
    ensures s[a..b][c..c + d] == s[a + c..a + c + d]
  {
    var u, v := s[a..b][c..c + d], s[a + c..a + c + d];
    forall t | 0 <= t < d
      ensures u[t] == v[t]
    {
    }
  }

  /** Where layer j starts in the buffer. */
  lemma LayerStart(block: seq<Byte>, k: nat, bs: nat, j: nat) returns (base: nat)
    requires j < Layers && Layers * k * bs <= |block|
    ensures base == j * (k * bs) && base + k * bs <= |block|
    ensures LayerBytes(block, k, bs, j) == block[base..base + k * bs]
  {
    MulMonotone(j + 1, Layers, k * bs);
    assert (j + 1) * (k * bs) == j * (k * bs) + k * bs;
    base := j * (k * bs);
  }

  lemma Distribute(j: nat, k: nat, i: nat, bs: nat)
    ensures (j * k + i) * bs == j * (k * bs) + i * bs
  {
  }
}
