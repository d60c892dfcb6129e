/** The encoder's layer-coupling transform (mul-encoder.c).  The stripe is
    cut into M = 8 layers; fdata[i] holds the k data blocks of layer i and
    fcoding[i] its m coding blocks.  Before the passes ffdata and ccoding
    are made copies of fdata and fcoding.

    A pass has a stride s and a window of columns.  Layer i is "lower" when
    i mod 2s < s and pairs with the "upper" layer i + s.  For every odd
    column j of the window the lower layer's block j absorbs the upper
    layer's block j - 1 by XOR; for every even column j the backup of the
    lower layer's block j + 1 is multiplied in place by e[j / 2] and then
    XORed into the upper layer's block j.  With a the lower block and b the
    upper block, the pair (a, b) becomes (a + b, b + e * a). */
module ForwardCoupling {
  import opened Gf
  import opened Grid

  /** M of mul-encoder.c: layers per stripe. */
  const Layers: nat := 8

  /** The table e of mul-encoder.c; only e[0] .. e[4] are ever used. */
  const E: seq<Byte> := [20, 18, 17, 16, 15, 13, 167]

  /** A window of columns [lo, hi) that starts and ends on a column pair
      and whose constants lie in the table. */
  predicate Window(lo: nat, hi: nat) {
    lo % 2 == 0 && hi % 2 == 0 && lo <= hi <= 2 * |E|
  }

  // ---------------------------------------------------------------------
  // Specification of one pass, layer by layer

  /** Block j of a lower layer after the pass: an odd column of the window
      has absorbed column j - 1 of the upper partner. */
  function LowerCell(row: Layer, upper: Layer, lo: nat, hi: nat, bs: nat, j: nat): Block
    requires Uniform(row, bs) && Uniform(upper, bs) && |upper| == |row| && j < |row|
  {
    if lo <= j < hi && j % 2 == 1 then Xor(row[j], upper[j - 1]) else row[j]
  }

  function LowerLayer(row: Layer, upper: Layer, lo: nat, hi: nat, bs: nat): Layer
    requires Uniform(row, bs) && Uniform(upper, bs) && |upper| == |row|
  {
    seq(|row|, j requires 0 <= j < |row| => LowerCell(row, upper, lo, hi, bs, j))
  }

  /** Block j of a lower layer's backup after the pass: an odd column of the
      window is multiplied by e[j / 2]. */
  function BackupCell(backup: Layer, lo: nat, hi: nat, j: nat): Block
    requires Window(lo, hi) && j < |backup|
  {
    if lo <= j < hi && j % 2 == 1 then Scale(E[j / 2], backup[j]) else backup[j]
  }

  function ScaledBackup(backup: Layer, lo: nat, hi: nat): Layer
    requires Window(lo, hi)
  {
    seq(|backup|, j requires 0 <= j < |backup| => BackupCell(backup, lo, hi, j))
  }

  /** Block j of an upper layer after the pass: an even column of the window
      has absorbed e[j / 2] times block j + 1 of the lower partner's backup. */
  function UpperCell(row: Layer, backup: Layer, lo: nat, hi: nat, bs: nat, j: nat): Block
    requires Window(lo, hi) && hi <= |row| && j < |row|
    requires Uniform(row, bs) && Uniform(backup, bs) && |backup| == |row|
  {
    if lo <= j < hi && j % 2 == 0 then Xor(row[j], Scale(E[j / 2], backup[j + 1])) else row[j]
  }

  function UpperLayer(row: Layer, backup: Layer, lo: nat, hi: nat, bs: nat): Layer
    requires Window(lo, hi) && hi <= |row|
    requires Uniform(row, bs) && Uniform(backup, bs) && |backup| == |row|
  {
    seq(|row|, j requires 0 <= j < |row| => UpperCell(row, backup, lo, hi, bs, j))
  }

  /** The shape every pass needs: grid and backup of the same height, a
      multiple of 2s, with `cols` columns of `bs` bytes. */
  predicate PassShape(F: seq<Layer>, B: seq<Layer>, s: nat, lo: nat, hi: nat, cols: nat, bs: nat) {
    s > 0 && |F| == |B| && |F| % (2 * s) == 0 &&
    Window(lo, hi) && hi <= cols &&
    Shaped(F, cols, bs) && Shaped(B, cols, bs)
  }

  /** Layer i after a pass of stride s over columns [lo, hi). */
  function CoupledLayer(F: seq<Layer>, B: seq<Layer>, s: nat, lo: nat, hi: nat, cols: nat, bs: nat, i: nat): (r: Layer)
    requires PassShape(F, B, s, lo, hi, cols, bs) && i < |F|
    ensures ShapedLayer(r, cols, bs)
  {
    if IsLower(i, s) then
      PartnerInRange(i, s, |F|);
      LayerShapes(F[i], F[i + s], lo, hi, bs);
      LowerLayer(F[i], F[i + s], lo, hi, bs)
    else
      UpperPartner(i, s);
      LayerShapes(F[i], B[i - s], lo, hi, bs);
      UpperLayer(F[i], B[i - s], lo, hi, bs)
  }

  /** Both kinds of layer keep the layer's shape. */
  lemma LayerShapes(row: Layer, other: Layer, lo: nat, hi: nat, bs: nat)
    requires Uniform(row, bs) && Uniform(other, bs) && |other| == |row|
    ensures |LowerLayer(row, other, lo, hi, bs)| == |row|
    ensures Uniform(LowerLayer(row, other, lo, hi, bs), bs)
    ensures Window(lo, hi) && hi <= |row| ==>
      |UpperLayer(row, other, lo, hi, bs)| == |row| && Uniform(UpperLayer(row, other, lo, hi, bs), bs)
  {
  }

  /** The grid after a pass. */
  function CoupledGrid(F: seq<Layer>, B: seq<Layer>, s: nat, lo: nat, hi: nat, cols: nat, bs: nat): (r: seq<Layer>)
    requires PassShape(F, B, s, lo, hi, cols, bs)
    ensures |r| == |F| && Shaped(r, cols, bs)
  {
    seq(|F|, i requires 0 <= i < |F| => CoupledLayer(F, B, s, lo, hi, cols, bs, i))
  }

  /** Layer t of the backup grid after a pass: only lower layers change. */
  function BackupLayer(B: seq<Layer>, s: nat, lo: nat, hi: nat, t: nat): Layer
    requires s > 0 && Window(lo, hi) && t < |B|
  {
    if IsLower(t, s) then ScaledBackup(B[t], lo, hi) else B[t]
  }

  /** The backup grid after a pass. */
  function CoupledBackup(B: seq<Layer>, s: nat, lo: nat, hi: nat): seq<Layer>
    requires s > 0 && Window(lo, hi)
  {
    seq(|B|, t requires 0 <= t < |B| => BackupLayer(B, s, lo, hi, t))
  }

  lemma BackupShaped(B: seq<Layer>, s: nat, lo: nat, hi: nat, cols: nat, bs: nat)
    requires s > 0 && Window(lo, hi) && Shaped(B, cols, bs)
    ensures |CoupledBackup(B, s, lo, hi)| == |B| && Shaped(CoupledBackup(B, s, lo, hi), cols, bs)
  {
    var R := CoupledBackup(B, s, lo, hi);
    forall t | 0 <= t < |B|
      ensures ShapedLayer(R[t], cols, bs)
    {
      assert |R[t]| == cols;
      forall j | 0 <= j < cols
        ensures |R[t][j]| == bs
      {
      }
    }
  }

  /** A pass writes only the odd window cells of lower layers and the even
      window cells of upper layers; every other cell keeps its value. */
  lemma PassFrame(F: seq<Layer>, B: seq<Layer>, s: nat, lo: nat, hi: nat, cols: nat, bs: nat, i: nat, c: nat)
    requires PassShape(F, B, s, lo, hi, cols, bs) && i < |F| && c < cols
    requires !(lo <= c < hi && (c % 2 == 1 <==> IsLower(i, s)))
    ensures CoupledGrid(F, B, s, lo, hi, cols, bs)[i][c] == F[i][c]
  {
  }

  /** A pass scales only the odd window cells of lower layers' backups. */
  lemma BackupFrame(B: seq<Layer>, s: nat, lo: nat, hi: nat, t: nat, c: nat)
    requires s > 0 && Window(lo, hi) && t < |B| && c < |B[t]|
    requires !(IsLower(t, s) && lo <= c < hi && c % 2 == 1)
    ensures CoupledBackup(B, s, lo, hi)[t][c] == B[t][c]
  {
  }

  /** The coupled pair: with a the lower layer's odd window cell (its backup
      read as a') and b the upper partner's cell one column to the left, a
      pass leaves a + b in the lower cell, b + e * a' in the upper cell and
      e * a' in the backup. */
  lemma PassPair(F: seq<Layer>, B: seq<Layer>, s: nat, lo: nat, hi: nat, cols: nat, bs: nat, i: nat, c: nat)
    requires PassShape(F, B, s, lo, hi, cols, bs) && i < |F|
    requires IsLower(i, s) && lo <= c < hi && c % 2 == 1
    ensures i + s < |F|
    ensures CoupledGrid(F, B, s, lo, hi, cols, bs)[i][c] == Xor(F[i][c], F[i + s][c - 1])
    ensures CoupledGrid(F, B, s, lo, hi, cols, bs)[i + s][c - 1] ==
      Xor(F[i + s][c - 1], Scale(E[c / 2], B[i][c]))
    ensures CoupledBackup(B, s, lo, hi)[i][c] == Scale(E[c / 2], B[i][c])
  {
    PartnerInRange(i, s, |F|);
    LowerPairCell(F, B, s, lo, hi, cols, bs, i, c);
    UpperPairCell(F, B, s, lo, hi, cols, bs, i, c);
  }

  lemma LowerPairCell(F: seq<Layer>, B: seq<Layer>, s: nat, lo: nat, hi: nat, cols: nat, bs: nat, i: nat, c: nat)
    requires PassShape(F, B, s, lo, hi, cols, bs) && i < |F| && i + s < |F|
    requires IsLower(i, s) && lo <= c < hi && c % 2 == 1
    ensures CoupledGrid(F, B, s, lo, hi, cols, bs)[i][c] == Xor(F[i][c], F[i + s][c - 1])
    ensures CoupledBackup(B, s, lo, hi)[i][c] == Scale(E[c / 2], B[i][c])
  {
    assert CoupledGrid(F, B, s, lo, hi, cols, bs)[i] == LowerLayer(F[i], F[i + s], lo, hi, bs);
  }

  lemma UpperPairCell(F: seq<Layer>, B: seq<Layer>, s: nat, lo: nat, hi: nat, cols: nat, bs: nat, i: nat, c: nat)
    requires PassShape(F, B, s, lo, hi, cols, bs) && i < |F| && i + s < |F|
    requires IsLower(i, s) && lo <= c < hi && c % 2 == 1
    ensures CoupledGrid(F, B, s, lo, hi, cols, bs)[i + s][c - 1] ==
      Xor(F[i + s][c - 1], Scale(E[c / 2], B[i][c]))
  {
    LowerSuccessor(i, s);
    assert i + s - s == i;
    assert CoupledGrid(F, B, s, lo, hi, cols, bs)[i + s] == UpperLayer(F[i + s], B[i], lo, hi, bs);
    assert (c - 1) / 2 == c / 2;
  }

  // ---------------------------------------------------------------------
  // The passes as the encoder runs them

  /** The byte loop around galois_region_xor(src + i1, dst + i1, 1). */
  method XorBytes(dst: Block, src: Block) returns (r: Block)
    requires |dst| == |src|
    ensures r == Xor(dst, src)
  {
    r := dst;
    var i1 := 0;
    while i1 < |dst|
      invariant 0 <= i1 <= |dst| && |r| == |dst|
      invariant forall x :: 0 <= x < i1 ==> r[x] == dst[x] ^ src[x]
      invariant forall x :: i1 <= x < |dst| ==> r[x] == dst[x]
    {
      r := r[i1 := r[i1] ^ src[i1]];
      i1 := i1 + 1;
    }
    XorPointwise(dst, src, r);
  }

  /** The column loop of a pass on a lower layer. */
  method LowerLayerPass(row: Layer, upper: Layer, lo: nat, hi: nat, bs: nat) returns (r: Layer)
    requires lo <= hi <= |row|
    requires Uniform(row, bs) && Uniform(upper, bs) && |upper| == |row|
    ensures r == LowerLayer(row, upper, lo, hi, bs)
  {
    r := row;
    var j := lo;
    while j < hi
      invariant lo <= j <= hi
      invariant |r| == |row|
      invariant forall c :: 0 <= c < |row| ==>
        r[c] == (if c < j then LowerCell(row, upper, lo, hi, bs, c) else row[c])
    {
      if j % 2 != 0 {
        var cell := XorBytes(r[j], upper[j - 1]);
        r := r[j := cell];
      }
      j := j + 1;
    }
  }

  /** The column loop of a pass on an upper layer: the backup block is
      multiplied in place, then XORed into the upper block. */
  method UpperLayerPass(row: Layer, backup: Layer, lo: nat, hi: nat, bs: nat)
    returns (r: Layer, nb: Layer)
    requires Window(lo, hi) && hi <= |row|
    requires Uniform(row, bs) && Uniform(backup, bs) && |backup| == |row|
    ensures r == UpperLayer(row, backup, lo, hi, bs)
    ensures nb == ScaledBackup(backup, lo, hi)
  {
    UpperColumnsStart(row, backup, lo, hi, bs);
    r, nb := row, backup;
    var j := lo;
    while j < hi
      invariant lo <= j <= hi
      invariant r == UpperUpTo(row, backup, lo, hi, bs, j)
      invariant nb == ScaledUpTo(backup, lo, hi, j)
    {
      if j % 2 == 0 {
        EvenColumnStep(row, backup, lo, hi, bs, j);
        EvenBackupStep(backup, lo, hi, j);
        nb := nb[j + 1 := Scale(E[j / 2], nb[j + 1])];
        var cell := XorBytes(r[j], nb[j + 1]);
        r := r[j := cell];
      } else {
        OddColumnStep(row, backup, lo, hi, bs, j);
      }
      j := j + 1;
    }
    UpperColumnsDone(row, backup, lo, hi, bs);
  }

  /** An upper layer once the column loop has visited columns below j. */
  function UpperUpTo(row: Layer, backup: Layer, lo: nat, hi: nat, bs: nat, j: nat): (r: Layer)
    requires Window(lo, hi) && hi <= |row|
    requires Uniform(row, bs) && Uniform(backup, bs) && |backup| == |row|
    ensures |r| == |row|
  {
    seq(|row|, c requires 0 <= c < |row| => if c < j then UpperCell(row, backup, lo, hi, bs, c) else row[c])
  }

  /** The lower partner's backup once the column loop has visited columns
      below j: backup cell j + 1 is scaled at column j. */
  function ScaledUpTo(backup: Layer, lo: nat, hi: nat, j: nat): (r: Layer)
    requires Window(lo, hi)
    ensures |r| == |backup|
  {
    seq(|backup|, c requires 0 <= c < |backup| => if c <= j then BackupCell(backup, lo, hi, c) else backup[c])
  }

  lemma UpperColumnsStart(row: Layer, backup: Layer, lo: nat, hi: nat, bs: nat)
    requires Window(lo, hi) && hi <= |row|
    requires Uniform(row, bs) && Uniform(backup, bs) && |backup| == |row|
    ensures UpperUpTo(row, backup, lo, hi, bs, lo) == row
    ensures ScaledUpTo(backup, lo, hi, lo) == backup
  {
  }

  lemma UpperColumnsDone(row: Layer, backup: Layer, lo: nat, hi: nat, bs: nat)
    requires Window(lo, hi) && hi <= |row|
    requires Uniform(row, bs) && Uniform(backup, bs) && |backup| == |row|
    ensures UpperUpTo(row, backup, lo, hi, bs, hi) == UpperLayer(row, backup, lo, hi, bs)
    ensures ScaledUpTo(backup, lo, hi, hi) == ScaledBackup(backup, lo, hi)
  {
  }

  /** An even column j of the loop scales backup cell j + 1 and adds it to
      cell j. */
  lemma EvenColumnStep(row: Layer, backup: Layer, lo: nat, hi: nat, bs: nat, j: nat)
    requires Window(lo, hi) && hi <= |row| && lo <= j < hi && j % 2 == 0
    requires Uniform(row, bs) && Uniform(backup, bs) && |backup| == |row|
    ensures j + 1 < hi && j / 2 < |E|
    ensures UpperUpTo(row, backup, lo, hi, bs, j)[j] == row[j]
    ensures UpperUpTo(row, backup, lo, hi, bs, j + 1) ==
      UpperUpTo(row, backup, lo, hi, bs, j)[j := Xor(row[j], Scale(E[j / 2], backup[j + 1]))]
  {
    var before, after := UpperUpTo(row, backup, lo, hi, bs, j), UpperUpTo(row, backup, lo, hi, bs, j + 1);
    forall c | 0 <= c < |row|
      ensures after[c] == before[j := Xor(row[j], Scale(E[j / 2], backup[j + 1]))][c]
    {
      if c == j {
        assert after[c] == UpperCell(row, backup, lo, hi, bs, j);
      } else {
        assert after[c] == before[c];
      }
    }
  }

  lemma EvenBackupStep(backup: Layer, lo: nat, hi: nat, j: nat)
    requires Window(lo, hi) && hi <= |backup| && lo <= j < hi && j % 2 == 0
    ensures j + 1 < hi && j / 2 < |E|
    ensures ScaledUpTo(backup, lo, hi, j)[j + 1] == backup[j + 1]
    ensures ScaledUpTo(backup, lo, hi, j + 1) ==
      ScaledUpTo(backup, lo, hi, j)[j + 1 := Scale(E[j / 2], backup[j + 1])]
  {
    var before, after := ScaledUpTo(backup, lo, hi, j), ScaledUpTo(backup, lo, hi, j + 1);
    forall c | 0 <= c < |backup|
      ensures after[c] == before[j + 1 := Scale(E[j / 2], backup[j + 1])][c]
    {
      if c == j + 1 {
        assert (j + 1) / 2 == j / 2;
        assert after[c] == BackupCell(backup, lo, hi, j + 1);
      } else {
        assert after[c] == before[c];
      }
    }
  }

  /** An odd column j of the loop changes nothing. */
  lemma OddColumnStep(row: Layer, backup: Layer, lo: nat, hi: nat, bs: nat, j: nat)
    requires Window(lo, hi) && hi <= |row| && lo <= j < hi && j % 2 == 1
    requires Uniform(row, bs) && Uniform(backup, bs) && |backup| == |row|
    ensures UpperUpTo(row, backup, lo, hi, bs, j + 1) == UpperUpTo(row, backup, lo, hi, bs, j)
    ensures ScaledUpTo(backup, lo, hi, j + 1) == ScaledUpTo(backup, lo, hi, j)
  {
    var before, after := UpperUpTo(row, backup, lo, hi, bs, j), UpperUpTo(row, backup, lo, hi, bs, j + 1);
    forall c | 0 <= c < |row|
      ensures after[c] == before[c]
    {
    }
    var sbefore, safter := ScaledUpTo(backup, lo, hi, j), ScaledUpTo(backup, lo, hi, j + 1);
    forall c | 0 <= c < |backup|
      ensures safter[c] == sbefore[c]
    {
    }
  }

  /** One coupling pass over the layers of F with backup B. */
  method CouplePass(F: array<Layer>, B: array<Layer>, s: nat, lo: nat, hi: nat, cols: nat, bs: nat)
    requires F != B
    requires PassShape(F[..], B[..], s, lo, hi, cols, bs)
    modifies F, B
    ensures F[..] == CoupledGrid(old(F[..]), old(B[..]), s, lo, hi, cols, bs)
    ensures B[..] == CoupledBackup(old(B[..]), s, lo, hi)
  {
    ghost var F0, B0 := F[..], B[..];
    var i := 0;
    while i < F.Length
      invariant 0 <= i <= F.Length
      invariant forall t :: 0 <= t < i ==> F[t] == CoupledLayer(F0, B0, s, lo, hi, cols, bs, t)
      invariant forall t :: i <= t < F.Length ==> F[t] == F0[t]
      invariant forall t :: 0 <= t < B.Length && t + s < i ==> B[t] == BackupLayer(B0, s, lo, hi, t)
      invariant forall t :: 0 <= t < B.Length && i <= t + s ==> B[t] == B0[t]
    {
      if i % (2 * s) < s {
        PartnerInRange(i, s, F.Length);
        if i >= s {
          LowerPredecessor(i, s);
        }
        var row := LowerLayerPass(F[i], F[i + s], lo, hi, bs);
        F[i] := row;
      } else {
        UpperPartner(i, s);
        var row, backup := UpperLayerPass(F[i], B[i - s], lo, hi, bs);
        F[i] := row;
        B[i - s] := backup;
      }
      i := i + 1;
    }
    forall t | 0 <= t < B.Length && IsLower(t, s)
      ensures t + s < i
    {
      PartnerInRange(t, s, B.Length);
    }
  }
}
