/** The layer grid both programs work on.  A stripe is cut into layers; a
    layer holds one block per column (k data columns in fdata, m coding
    columns in fcoding), every block `blocksize` bytes long.  In the C
    programs a layer is one flat buffer and column j starts at byte
    j * blocksize; here a layer is the sequence of its column blocks, and
    Flatten gives back the flat buffer. */
module Grid {
  import opened Gf

  type Layer = seq<Block>

  /** Every block of the layer is `bs` bytes long. */
  predicate Uniform(layer: Layer, bs: nat) {
    forall j :: 0 <= j < |layer| ==> |layer[j]| == bs
  }

  /** A layer of `cols` blocks of `bs` bytes each. */
  predicate ShapedLayer(layer: Layer, cols: nat, bs: nat) {
    |layer| == cols && Uniform(layer, bs)
  }

  /** Every layer of the grid has `cols` blocks of `bs` bytes. */
  predicate Shaped(g: seq<Layer>, cols: nat, bs: nat) {
    forall t :: 0 <= t < |g| ==> ShapedLayer(g[t], cols, bs)
  }

  /** The flat byte buffer of a layer: its blocks one after another. */
  function Flatten(layer: Layer): seq<Byte> {
    if |layer| == 0 then [] else layer[0] + Flatten(layer[1..])
  }

  lemma {:induction false} FlattenLength(layer: Layer, cols: nat, bs: nat)
    requires ShapedLayer(layer, cols, bs)
    ensures |Flatten(layer)| == cols * bs
    decreases cols
  {
    if cols > 0 {
      FlattenLength(layer[1..], cols - 1, bs);
    }
  }

  /** Byte x of column c sits at offset c * bs + x of the flat buffer. */
  lemma {:induction false} FlattenIndex(layer: Layer, cols: nat, bs: nat, c: nat, x: nat)
    requires ShapedLayer(layer, cols, bs)
    requires c < cols && x < bs
    ensures |Flatten(layer)| == cols * bs
    ensures c * bs + x < |Flatten(layer)|
    ensures Flatten(layer)[c * bs + x] == layer[c][x]
    decreases cols
  {
    FlattenLength(layer, cols, bs);
    if c > 0 {
      FlattenIndex(layer[1..], cols - 1, bs, c - 1, x);
      assert c * bs + x == bs + ((c - 1) * bs + x);
    }
  }

  /** The backup loops of both programs: dst becomes a copy of src, layer
      by layer. */
  method CopyGrid(src: array<Layer>, dst: array<Layer>)
    requires src != dst && dst.Length == src.Length
    modifies dst
    ensures dst[..] == src[..]
  {
    var i := 0;
    while i < src.Length
      invariant 0 <= i <= src.Length
      invariant forall t :: 0 <= t < i ==> dst[t] == src[t]
    {
      dst[i] := src[i];
      i := i + 1;
    }
  }

  /** In a pass of stride s, layer i is a lower layer when i mod 2s < s and
      an upper layer otherwise. */
  predicate IsLower(i: nat, s: nat)
    requires s > 0
  {
    i % (2 * s) < s
  }

  /** Layer i and layer i + s pair up when i mod 2s < s; in a grid whose
      height is a multiple of 2s the partner exists. */
  lemma PartnerInRange(i: nat, s: nat, n: nat)
    requires s > 0 && n % (2 * s) == 0 && i < n
    requires i % (2 * s) < s
    ensures i + s < n
  {
    var d := 2 * s;
    DivMod(i, d);
    DivMod(n, d);
    var q, top := i / d, n / d;
    MulMonotone(top, q, d);
    MulMonotone(q + 1, top, d);
    assert (q + 1) * d == q * d + d;
  }

  lemma MulMonotone(a: nat, b: nat, d: nat)
    ensures a <= b ==> a * d <= b * d
  {
    if a <= b {
      assert b * d == a * d + (b - a) * d;
    }
  }

  /** Quotient and remainder, with the product kept as one term. */
  lemma DivMod(x: nat, d: nat)
    requires d > 0
    ensures x == (x / d) * d + x % d && x % d < d && 0 <= (x / d) * d
  {
  }

  /** An upper layer i (i mod 2s >= s) has the lower partner i - s. */
  lemma UpperPartner(i: nat, s: nat)
    requires s > 0 && i % (2 * s) >= s
    ensures i >= s && (i - s) % (2 * s) == i % (2 * s) - s
  {
    var d := 2 * s;
    DivMod(i, d);
    ModUnique(i - s, d, i / d, i % d - s);
  }

  /** The partner i + s of a lower layer i is an upper layer. */
  lemma LowerSuccessor(i: nat, s: nat)
    requires s > 0 && i % (2 * s) < s
    ensures (i + s) % (2 * s) == i % (2 * s) + s
  {
    var d := 2 * s;
    DivMod(i, d);
    ModUnique(i + s, d, i / d, i % d + s);
  }

  /** A lower layer i at or above s has an upper layer i - s below it. */
  lemma LowerPredecessor(i: nat, s: nat)
    requires s > 0 && i >= s && i % (2 * s) < s
    ensures (i - s) % (2 * s) == i % (2 * s) + s
  {
    var d := 2 * s;
    DivMod(i, d);
    var q, r := i / d, i % d;
    if q == 0 {
      assert false;
    }
    assert q * d == (q - 1) * d + d;
    ModUnique(i - s, d, q - 1, r + s);
  }

  /** Division with remainder is unique. */
  lemma ModUnique(x: nat, d: nat, q: nat, r: nat)
    requires d > 0 && r < d && x == q * d + r
    ensures x % d == r && x / d == q
  {
    var q', r' := x / d, x % d;
    assert x == q' * d + r';
    assert (q' + 1) * d == q' * d + d;
    assert (q + 1) * d == q * d + d;
    MulMonotone(q' + 1, q, d);
    MulMonotone(q + 1, q', d);
  }
}
