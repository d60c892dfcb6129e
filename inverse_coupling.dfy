/** One pass of the decoder's inverse coupling (clay-decoder.c:479-598).
    The stripe holds M = 128 layers.  A pass works on one column pair
    (lo, lo + 1) with stride s, and undoes the coupling
    (a, b) -> (a + 2b, 2a + b) between the odd cell of a lower layer i and the
    even cell of its upper partner i + s:

    - lower side (layer i, column lo + 1, partner cell U = F[i + s][lo]):
      L := L + U; L := L / 3; L := L + U; L := L / 3;
    - upper side (layer i, column lo, partner the lower layer i - s):
      the backup cell becomes 2 times the partner's current (already
      restored) cell lo + 1, which is then added to F[i][lo].

    Each side runs only when its gate, read from the erased flags, is open.
    The factor 1/3 is galois_single_divide(1, 3, w), taken in GF(2^8). */
module InverseCoupling {
  import opened Gf
  import opened Grid

  /** M of clay-decoder.c: layers per stripe. */
  const Layers: nat := 128

  /** galois_single_divide(1, 3, 8); InverseOfThree shows it is 244. */
  const InvThree: Byte := 244

  /** A pass: the stride, the even column of its pair, and whether the
      lower and the upper side run. */
  datatype Pass = Pass(stride: nat, lo: nat, lowerOpen: bool, upperOpen: bool)

  /** A pass fits a grid of n layers and `cols` columns: the height is a
      multiple of 2s and the pair (lo, lo + 1) is inside the grid. */
  predicate Fits(p: Pass, n: nat, cols: nat) {
    p.stride > 0 && n % (2 * p.stride) == 0 && p.lo % 2 == 0 && p.lo + 1 < cols
  }

  /** The grid and backup a pass works on. */
  predicate PassShape(F: seq<Layer>, B: seq<Layer>, p: Pass, cols: nat, bs: nat) {
    Fits(p, |F|, cols) && |F| == |B| && Shaped(F, cols, bs) && Shaped(B, cols, bs)
  }

  /** The cells a pass writes: cell lo + 1 of a lower layer when the lower
      gate is open, cell lo of an upper layer when the upper gate is open. */
  predicate Writes(p: Pass, i: nat, c: nat)
    requires p.stride > 0
  {
    if IsLower(i, p.stride) then p.lowerOpen && c == p.lo + 1 else p.upperOpen && c == p.lo
  }

  /** The backup cells a pass writes: cell lo + 1 of a lower layer, when the
      upper gate is open. */
  predicate BackupWrites(p: Pass, i: nat, c: nat)
    requires p.stride > 0
  {
    IsLower(i, p.stride) && p.upperOpen && c == p.lo + 1
  }

  // ---------------------------------------------------------------------
  // Specification of one pass, layer by layer

  /** The lower step on whole blocks: add the partner, divide by 3, add the
      partner again, divide by 3. */
  function SolveLower(lower: Block, upper: Block): (r: Block)
    requires |lower| == |upper|
    ensures |r| == |lower|
  {
    Scale(InvThree, Xor(Scale(InvThree, Xor(lower, upper)), upper))
  }

  /** A lower layer after the pass, given its upper partner: with the lower
      gate open, cell lo + 1 is solved against the partner's cell lo. */
  function LowerSolved(row: Layer, partner: Layer, p: Pass, cols: nat, bs: nat): (r: Layer)
    requires ShapedLayer(row, cols, bs) && ShapedLayer(partner, cols, bs) && p.lo + 1 < cols
    ensures ShapedLayer(r, cols, bs)
  {
    if p.lowerOpen then row[p.lo + 1 := SolveLower(row[p.lo + 1], partner[p.lo])] else row
  }

  /** An upper layer after the pass, given its lower partner as the pass
      left it: with the upper gate open, cell lo absorbs 2 times the
      partner's cell lo + 1. */
  function UpperSolved(row: Layer, solved: Layer, p: Pass, cols: nat, bs: nat): (r: Layer)
    requires ShapedLayer(row, cols, bs) && ShapedLayer(solved, cols, bs) && p.lo + 1 < cols
    ensures ShapedLayer(r, cols, bs)
  {
    if p.upperOpen then row[p.lo := Xor(row[p.lo], Scale(2, solved[p.lo + 1]))] else row
  }

  /** The backup of a lower layer after the pass: with the upper gate open,
      cell lo + 1 holds 2 times the layer's solved cell lo + 1. */
  function BackupSolved(backup: Layer, solved: Layer, p: Pass, cols: nat, bs: nat): (r: Layer)
    requires ShapedLayer(backup, cols, bs) && ShapedLayer(solved, cols, bs) && p.lo + 1 < cols
    ensures ShapedLayer(r, cols, bs)
  {
    if p.upperOpen then backup[p.lo + 1 := Scale(2, solved[p.lo + 1])] else backup
  }

  /** Layer i after the pass. */
  function SolvedLayer(F: seq<Layer>, B: seq<Layer>, p: Pass, cols: nat, bs: nat, i: nat): (r: Layer)
    requires PassShape(F, B, p, cols, bs) && i < |F|
    ensures ShapedLayer(r, cols, bs)
  {
    if IsLower(i, p.stride) then
      PartnerInRange(i, p.stride, |F|);
      LowerSolved(F[i], F[i + p.stride], p, cols, bs)
    else
      UpperPartner(i, p.stride);
      UpperSolved(F[i], LowerSolved(F[i - p.stride], F[i], p, cols, bs), p, cols, bs)
  }

  /** Layer t of the backup after the pass: only lower layers change. */
  function BackupAfter(F: seq<Layer>, B: seq<Layer>, p: Pass, cols: nat, bs: nat, t: nat): (r: Layer)
    requires PassShape(F, B, p, cols, bs) && t < |F|
    ensures ShapedLayer(r, cols, bs)
  {
    if IsLower(t, p.stride) then
      PartnerInRange(t, p.stride, |F|);
      BackupSolved(B[t], LowerSolved(F[t], F[t + p.stride], p, cols, bs), p, cols, bs)
    else B[t]
  }

  function SolvedGrid(F: seq<Layer>, B: seq<Layer>, p: Pass, cols: nat, bs: nat): (r: seq<Layer>)
    requires PassShape(F, B, p, cols, bs)
    ensures |r| == |F| && Shaped(r, cols, bs)
  {
    seq(|F|, i requires 0 <= i < |F| => SolvedLayer(F, B, p, cols, bs, i))
  }

  function SolvedBackup(F: seq<Layer>, B: seq<Layer>, p: Pass, cols: nat, bs: nat): (r: seq<Layer>)
    requires PassShape(F, B, p, cols, bs)
    ensures |r| == |B| && Shaped(r, cols, bs)
  {
    seq(|B|, t requires 0 <= t < |B| => BackupAfter(F, B, p, cols, bs, t))
  }

  // ---------------------------------------------------------------------
  // The pass as the decoder runs it

  /** The grid once the i loop has visited layers 0 .. i - 1. */
  function GridProgress(F: seq<Layer>, B: seq<Layer>, p: Pass, cols: nat, bs: nat, i: nat): (r: seq<Layer>)
    requires PassShape(F, B, p, cols, bs)
    ensures |r| == |F|
  {
    seq(|F|, t requires 0 <= t < |F| => if t < i then SolvedLayer(F, B, p, cols, bs, t) else F[t])
  }

  /** The backup once the i loop has visited layers 0 .. i - 1: lower layer
      t is written when its partner t + s is visited. */
  function BackupProgress(F: seq<Layer>, B: seq<Layer>, p: Pass, cols: nat, bs: nat, i: nat): (r: seq<Layer>)
    requires PassShape(F, B, p, cols, bs)
    ensures |r| == |B|
  {
    seq(|B|, t requires 0 <= t < |B| => if t + p.stride < i then BackupAfter(F, B, p, cols, bs, t) else B[t])
  }

  /** The i loop of one pass.  The source's lower test is
      i - (i / 2s) * 2s < s. */
  method InversePass(F: array<Layer>, B: array<Layer>, p: Pass, cols: nat, bs: nat)
    requires F != B && PassShape(F[..], B[..], p, cols, bs)
    modifies F, B
    ensures F[..] == SolvedGrid(old(F[..]), old(B[..]), p, cols, bs)
    ensures B[..] == SolvedBackup(old(F[..]), old(B[..]), p, cols, bs)
  {
    ghost var F0, B0 := F[..], B[..];
    ProgressStart(F0, B0, p, cols, bs);
    var s := p.stride;
    var i := 0;
    while i < F.Length
      invariant 0 <= i <= F.Length
      invariant F[..] == GridProgress(F0, B0, p, cols, bs, i)
      invariant B[..] == BackupProgress(F0, B0, p, cols, bs, i)
    {
      var i1 := i - (i / (2 * s)) * (2 * s);
      assert i1 == i % (2 * s);
      if i1 < s {
        ProgressLower(F0, B0, p, cols, bs, i);
        var row := LowerSide(F[i], F[i + s], p, cols, bs);
        F[i] := row;
      } else {
        ProgressUpper(F0, B0, p, cols, bs, i);
        var row, backup := UpperSide(F[i], B[i - s], F[i - s], p, cols, bs);
        F[i] := row;
        B[i - s] := backup;
      }
      i := i + 1;
    }
    ProgressDone(F0, B0, p, cols, bs);
  }

  lemma ProgressStart(F: seq<Layer>, B: seq<Layer>, p: Pass, cols: nat, bs: nat)
    requires PassShape(F, B, p, cols, bs)
    ensures GridProgress(F, B, p, cols, bs, 0) == F
    ensures BackupProgress(F, B, p, cols, bs, 0) == B
  {
  }

  lemma ProgressDone(F: seq<Layer>, B: seq<Layer>, p: Pass, cols: nat, bs: nat)
    requires PassShape(F, B, p, cols, bs)
    ensures GridProgress(F, B, p, cols, bs, |F|) == SolvedGrid(F, B, p, cols, bs)
    ensures BackupProgress(F, B, p, cols, bs, |F|) == SolvedBackup(F, B, p, cols, bs)
  {
    forall t | 0 <= t < |B|
      ensures BackupProgress(F, B, p, cols, bs, |F|)[t] == SolvedBackup(F, B, p, cols, bs)[t]
    {
      if IsLower(t, p.stride) {
        PartnerInRange(t, p.stride, |B|);
      }
    }
  }

  /** Visiting a lower layer i writes LowerSolved of its current contents and
      its partner's into layer i and leaves the backup alone. */
  lemma ProgressLower(F: seq<Layer>, B: seq<Layer>, p: Pass, cols: nat, bs: nat, i: nat)
    requires PassShape(F, B, p, cols, bs) && i < |F| && i % (2 * p.stride) < p.stride
    ensures i + p.stride < |F|
    ensures GridProgress(F, B, p, cols, bs, i)[i] == F[i]
    ensures GridProgress(F, B, p, cols, bs, i)[i + p.stride] == F[i + p.stride]
    ensures GridProgress(F, B, p, cols, bs, i + 1) ==
      GridProgress(F, B, p, cols, bs, i)[i := LowerSolved(F[i], F[i + p.stride], p, cols, bs)]
    ensures BackupProgress(F, B, p, cols, bs, i + 1) == BackupProgress(F, B, p, cols, bs, i)
  {
    PartnerInRange(i, p.stride, |F|);
    LowerStep(F, B, p, cols, bs, i);
  }

  /** Visiting an upper layer i reads the lower partner i - s as already
      visited, writes UpperSolved into layer i and BackupSolved into the
      partner's backup. */
  lemma ProgressUpper(F: seq<Layer>, B: seq<Layer>, p: Pass, cols: nat, bs: nat, i: nat)
    requires PassShape(F, B, p, cols, bs) && i < |F| && i % (2 * p.stride) >= p.stride
    ensures i >= p.stride
    ensures GridProgress(F, B, p, cols, bs, i)[i] == F[i]
    ensures BackupProgress(F, B, p, cols, bs, i)[i - p.stride] == B[i - p.stride]
    ensures GridProgress(F, B, p, cols, bs, i + 1) ==
      GridProgress(F, B, p, cols, bs, i)[i := UpperSolved(F[i], GridProgress(F, B, p, cols, bs, i)[i - p.stride], p, cols, bs)]
    ensures BackupProgress(F, B, p, cols, bs, i + 1) ==
      BackupProgress(F, B, p, cols, bs, i)[i - p.stride :=
        BackupSolved(B[i - p.stride], GridProgress(F, B, p, cols, bs, i)[i - p.stride], p, cols, bs)]
  {
    UpperStep(F, B, p, cols, bs, i);
  }

  /** The lower side at one layer: when its gate is open, cell lo + 1 goes
      through the four region operations (add the partner's cell lo,
      divide by 3, add it again, divide by 3). */
  method LowerSide(row: Layer, partner: Layer, p: Pass, cols: nat, bs: nat) returns (r: Layer)
    requires ShapedLayer(row, cols, bs) && ShapedLayer(partner, cols, bs) && p.lo + 1 < cols
    ensures r == LowerSolved(row, partner, p, cols, bs)
  {
    r := row;
    if p.lowerOpen {
      var cell := Xor(row[p.lo + 1], partner[p.lo]);
      cell := Scale(InvThree, cell);
      cell := Xor(cell, partner[p.lo]);
      cell := Scale(InvThree, cell);
      r := r[p.lo + 1 := cell];
    }
  }

  /** The upper side at one layer: when its gate is open, the backup cell
      lo + 1 of the lower partner becomes 2 times the partner's cell lo + 1,
      and that value is added to cell lo of the layer. */
  method UpperSide(row: Layer, backup: Layer, partner: Layer, p: Pass, cols: nat, bs: nat)
    returns (r: Layer, nb: Layer)
    requires ShapedLayer(row, cols, bs) && ShapedLayer(backup, cols, bs) && ShapedLayer(partner, cols, bs)
    requires p.lo + 1 < cols
    ensures r == UpperSolved(row, partner, p, cols, bs)
    ensures nb == BackupSolved(backup, partner, p, cols, bs)
  {
    r, nb := row, backup;
    if p.upperOpen {
      var doubled := Scale(2, partner[p.lo + 1]);
      nb := nb[p.lo + 1 := doubled];
      r := r[p.lo := Xor(row[p.lo], doubled)];
    }
  }

  /** At a lower layer i the pass writes LowerSolved; the backup of the
      upper layer i - s below it, if any, is not touched. */
  lemma LowerStep(F: seq<Layer>, B: seq<Layer>, p: Pass, cols: nat, bs: nat, i: nat)
    requires PassShape(F, B, p, cols, bs) && i < |F| && IsLower(i, p.stride)
    requires i + p.stride < |F|
    ensures SolvedLayer(F, B, p, cols, bs, i) == LowerSolved(F[i], F[i + p.stride], p, cols, bs)
    ensures i >= p.stride ==> BackupAfter(F, B, p, cols, bs, i - p.stride) == B[i - p.stride]
  {
    if i >= p.stride {
      LowerPredecessor(i, p.stride);
    }
  }

  /** At an upper layer i the pass reads its lower partner i - s as the pass
      already left it, and writes that partner's backup. */
  lemma UpperStep(F: seq<Layer>, B: seq<Layer>, p: Pass, cols: nat, bs: nat, i: nat)
    requires PassShape(F, B, p, cols, bs) && i < |F| && !IsLower(i, p.stride)
    ensures i >= p.stride && IsLower(i - p.stride, p.stride)
    ensures SolvedLayer(F, B, p, cols, bs, i - p.stride) == LowerSolved(F[i - p.stride], F[i], p, cols, bs)
    ensures SolvedLayer(F, B, p, cols, bs, i) ==
      UpperSolved(F[i], SolvedLayer(F, B, p, cols, bs, i - p.stride), p, cols, bs)
    ensures BackupAfter(F, B, p, cols, bs, i - p.stride) ==
      BackupSolved(B[i - p.stride], SolvedLayer(F, B, p, cols, bs, i - p.stride), p, cols, bs)
  {
    UpperPartner(i, p.stride);
    assert i - p.stride + p.stride == i;
  }

  // ---------------------------------------------------------------------
  // What a pass does

  /** The pass map pairs layer i with i + s (lower) or i - s (upper). */
  function Partner(i: nat, s: nat): nat
    requires s > 0
  {
    if IsLower(i, s) then i + s else UpperPartner(i, s); i - s
  }

  /** Partner is an involution on the layers of a grid whose height is a
      multiple of 2s. */
  lemma PartnerInvolution(i: nat, s: nat, n: nat)
    requires s > 0 && n % (2 * s) == 0 && i < n
    ensures Partner(i, s) < n && Partner(i, s) != i
    ensures IsLower(Partner(i, s), s) <==> !IsLower(i, s)
    ensures Partner(Partner(i, s), s) == i
  {
    if IsLower(i, s) {
      PartnerInRange(i, s, n);
      LowerSuccessor(i, s);
    } else {
      UpperPartner(i, s);
    }
  }

  /** The source's test i - (i / 2s) * 2s < s is the lower-layer test. */
  lemma SourceLowerTest(i: nat, s: nat)
    requires s > 0
    ensures (i - (i / (2 * s)) * (2 * s) < s) <==> IsLower(i, s)
  {
  }

  /** A pass changes no cell it does not write, in the grid or in the
      backup. */
  lemma PassFrame(F: seq<Layer>, B: seq<Layer>, p: Pass, cols: nat, bs: nat, i: nat, c: nat)
    requires PassShape(F, B, p, cols, bs) && i < |F| && c < cols
    ensures !Writes(p, i, c) ==> SolvedGrid(F, B, p, cols, bs)[i][c] == F[i][c]
    ensures !BackupWrites(p, i, c) ==> SolvedBackup(F, B, p, cols, bs)[i][c] == B[i][c]
  {
    assert SolvedGrid(F, B, p, cols, bs)[i] == SolvedLayer(F, B, p, cols, bs, i);
    assert SolvedBackup(F, B, p, cols, bs)[i] == BackupAfter(F, B, p, cols, bs, i);
  }

  /** Solving one coupled pair: if the lower cell holds a + 2b and the upper
      cell holds 2a + b and both sides run, the lower cell ends as a, the
      upper cell as b, and the backup holds 2a. */
  lemma PassSolvesPair(F: seq<Layer>, B: seq<Layer>, p: Pass, cols: nat, bs: nat, i: nat, u: nat, a: Block, b: Block)
    requires PassShape(F, B, p, cols, bs) && i < |F| && IsLower(i, p.stride)
    requires p.lowerOpen && p.upperOpen && |a| == |b| == bs
    requires u == i + p.stride && u < |F|
    requires F[i][p.lo + 1] == Xor(a, Scale(2, b))
    requires F[u][p.lo] == Xor(Scale(2, a), b)
    ensures SolvedGrid(F, B, p, cols, bs)[i][p.lo + 1] == a
    ensures SolvedGrid(F, B, p, cols, bs)[u][p.lo] == b
    ensures SolvedBackup(F, B, p, cols, bs)[i][p.lo + 1] == Scale(2, a)
  {
    var solved := LowerSolved(F[i], F[i + p.stride], p, cols, bs);
    SolveBlock(a, b);
    assert solved[p.lo + 1] == a;
    SolvedCells(F, B, p, cols, bs, i);
    UpperRestored(F[i + p.stride][p.lo], a, b);
  }

  /** The upper side adds 2a to 2a + b and leaves b. */
  lemma UpperRestored(upper: Block, a: Block, b: Block)
    requires |a| == |b| && upper == Xor(Scale(2, a), b)
    ensures Xor(upper, Scale(2, a)) == b
  {
    XorCancel(Scale(2, a), b);
  }

  /** The three cells a pair's two sides write, in terms of the lower
      layer as the pass leaves it. */
  lemma SolvedCells(F: seq<Layer>, B: seq<Layer>, p: Pass, cols: nat, bs: nat, i: nat)
    requires PassShape(F, B, p, cols, bs) && i < |F| && IsLower(i, p.stride)
    requires p.upperOpen && i + p.stride < |F|
    ensures SolvedGrid(F, B, p, cols, bs)[i] == LowerSolved(F[i], F[i + p.stride], p, cols, bs)
    ensures SolvedGrid(F, B, p, cols, bs)[i + p.stride][p.lo] ==
      Xor(F[i + p.stride][p.lo], Scale(2, LowerSolved(F[i], F[i + p.stride], p, cols, bs)[p.lo + 1]))
    ensures SolvedBackup(F, B, p, cols, bs)[i][p.lo + 1] ==
      Scale(2, LowerSolved(F[i], F[i + p.stride], p, cols, bs)[p.lo + 1])
  {
    assert SolvedGrid(F, B, p, cols, bs)[i] == SolvedLayer(F, B, p, cols, bs, i);
    assert SolvedBackup(F, B, p, cols, bs)[i] == BackupAfter(F, B, p, cols, bs, i);
    SolvedUpperCell(F, B, p, cols, bs, i);
  }

  lemma SolvedUpperCell(F: seq<Layer>, B: seq<Layer>, p: Pass, cols: nat, bs: nat, i: nat)
    requires PassShape(F, B, p, cols, bs) && i < |F| && IsLower(i, p.stride)
    requires p.upperOpen && i + p.stride < |F|
    ensures SolvedGrid(F, B, p, cols, bs)[i + p.stride][p.lo] ==
      Xor(F[i + p.stride][p.lo], Scale(2, LowerSolved(F[i], F[i + p.stride], p, cols, bs)[p.lo + 1]))
  {
    var j := i + p.stride;
    LowerSuccessor(i, p.stride);
    assert !IsLower(j, p.stride);
    assert j - p.stride == i;
    assert SolvedGrid(F, B, p, cols, bs)[j] == SolvedLayer(F, B, p, cols, bs, j);
  }

  /** The block form of the 2x2 solve. */
  lemma SolveBlock(a: Block, b: Block)
    requires |a| == |b|
    ensures SolveLower(Xor(a, Scale(2, b)), Xor(Scale(2, a), b)) == a
  {
    var r := SolveLower(Xor(a, Scale(2, b)), Xor(Scale(2, a), b));
    forall x | 0 <= x < |a|
      ensures r[x] == a[x]
    {
      SolveAt(a, b, x);
    }
    assert r == a;
  }

  /** Byte x of the solved lower block. */
  lemma SolveAt(a: Block, b: Block, x: nat)
    requires |a| == |b| && x < |a|
    ensures SolveLower(Xor(a, Scale(2, b)), Xor(Scale(2, a), b))[x] == a[x]
  {
    var lower, upper := Xor(a, Scale(2, b)), Xor(Scale(2, a), b);
    FirstHalfAt(a, b, x);
    XorIndex(Scale(2, a), b, x);
    ScaleIndex(2, a, x);
    SecondHalfAt(Scale(InvThree, Xor(lower, upper)), upper, a[x], b[x], x);
  }

  /** The second "add, divide by 3": from a + b and 2a + b it leaves a. */
  lemma SecondHalfAt(first: Block, upper: Block, a: Byte, b: Byte, x: nat)
    requires |first| == |upper| && x < |first|
    requires first[x] == a ^ b && upper[x] == Mul(2, a) ^ b
    ensures Scale(InvThree, Xor(first, upper))[x] == a
  {
    assert Xor(first, upper)[x] == (a ^ b) ^ (Mul(2, a) ^ b) by {
      XorIndex(first, upper, x);
    }
    DivideByThreeAt(Xor(first, upper), x);
    SolveSecondHalf(a, b);
  }

  /** After the first "add, divide by 3" the lower cell holds a + b. */
  lemma FirstHalfAt(a: Block, b: Block, x: nat)
    requires |a| == |b| && x < |a|
    ensures Scale(InvThree, Xor(Xor(a, Scale(2, b)), Xor(Scale(2, a), b)))[x] == a[x] ^ b[x]
  {
    CoupledSumAt(a, b, x);
    DivideByThreeAt(Xor(Xor(a, Scale(2, b)), Xor(Scale(2, a), b)), x);
    SolveFirstHalf(a[x], b[x]);
  }

  /** Byte x of the sum of the coupled cells. */
  lemma CoupledSumAt(a: Block, b: Block, x: nat)
    requires |a| == |b| && x < |a|
    ensures Xor(Xor(a, Scale(2, b)), Xor(Scale(2, a), b))[x] == (a[x] ^ Mul(2, b[x])) ^ (Mul(2, a[x]) ^ b[x])
  {
    XorIndex(Xor(a, Scale(2, b)), Xor(Scale(2, a), b), x);
    XorIndex(a, Scale(2, b), x);
    ScaleIndex(2, b, x);
    XorIndex(Scale(2, a), b, x);
    ScaleIndex(2, a, x);
  }

  /** Byte x of a block divided by 3. */
  lemma DivideByThreeAt(blk: Block, x: nat)
    requires x < |blk|
    ensures Scale(InvThree, blk)[x] == Mul(244, blk[x])
  {
    ScaleIndex(InvThree, blk, x);
  }
}
