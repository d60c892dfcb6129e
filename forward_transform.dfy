/** The encoder's whole coupling transform (mul-encoder.c:661-805): the
    backups ffdata and ccoding are made, then four passes run, three over
    the data grid and one over the coding grid.  Their column windows are
    disjoint, so every coupled cell pair ends up as (a + b, b + e * a) on the
    values from before the transform, and a can be recovered from the two
    cells. */
module ForwardTransform {
  import opened Gf
  import opened Grid
  import opened ForwardCoupling

  /** The grids the transform takes: M layers of k data blocks (k >= 10, as
      the fixed data windows reach column 9) and of m coding blocks (m >= 4,
      as the coding window reaches column 3). */
  predicate Input(F: seq<Layer>, C: seq<Layer>, k: nat, m: nat, bs: nat) {
    k >= 10 && m >= 4 && |F| == Layers && |C| == Layers &&
    Shaped(F, k, bs) && Shaped(C, m, bs)
  }

  /** The stride of the data pass whose window holds column c < 10. */
  function DataStride(c: nat): (s: nat)
    ensures s > 0
  {
    if c < 2 then 1 else if c < 8 then 2 else 4
  }

  /** Stride of the coding pass. */
  const CodingStride: nat := 4

  // ---------------------------------------------------------------------
  // Specification: the passes composed

  /** Data grid and its backup after the first pass (columns 0-1). */
  function DataAfterFirst(F: seq<Layer>, k: nat, bs: nat): (r: (seq<Layer>, seq<Layer>))
    requires k >= 10 && |F| == Layers && Shaped(F, k, bs)
    ensures |r.0| == Layers && Shaped(r.0, k, bs) && |r.1| == Layers && Shaped(r.1, k, bs)
  {
    BackupShaped(F, 1, 0, 2, k, bs);
    (CoupledGrid(F, F, 1, 0, 2, k, bs), CoupledBackup(F, 1, 0, 2))
  }

  /** ... after the second pass (columns 2-7). */
  function DataAfterSecond(F: seq<Layer>, k: nat, bs: nat): (r: (seq<Layer>, seq<Layer>))
    requires k >= 10 && |F| == Layers && Shaped(F, k, bs)
    ensures |r.0| == Layers && Shaped(r.0, k, bs) && |r.1| == Layers && Shaped(r.1, k, bs)
  {
    var (F1, B1) := DataAfterFirst(F, k, bs);
    BackupShaped(B1, 2, 2, 8, k, bs);
    (CoupledGrid(F1, B1, 2, 2, 8, k, bs), CoupledBackup(B1, 2, 2, 8))
  }

  /** fdata and ffdata after the third pass (columns 8-9). */
  function DataTransform(F: seq<Layer>, k: nat, bs: nat): (r: (seq<Layer>, seq<Layer>))
    requires k >= 10 && |F| == Layers && Shaped(F, k, bs)
    ensures |r.0| == Layers && Shaped(r.0, k, bs) && |r.1| == Layers && Shaped(r.1, k, bs)
  {
    var (F2, B2) := DataAfterSecond(F, k, bs);
    BackupShaped(B2, 4, 8, 10, k, bs);
    (CoupledGrid(F2, B2, 4, 8, 10, k, bs), CoupledBackup(B2, 4, 8, 10))
  }

  /** fcoding and ccoding after the coding pass (columns 0-3). */
  function CodingTransform(C: seq<Layer>, m: nat, bs: nat): (r: (seq<Layer>, seq<Layer>))
    requires m >= 4 && |C| == Layers && Shaped(C, m, bs)
    ensures |r.0| == Layers && Shaped(r.0, m, bs) && |r.1| == Layers && Shaped(r.1, m, bs)
  {
    BackupShaped(C, CodingStride, 0, 4, m, bs);
    (CoupledGrid(C, C, CodingStride, 0, 4, m, bs), CoupledBackup(C, CodingStride, 0, 4))
  }

  // ---------------------------------------------------------------------
  // The transform as the encoder runs it

  /** Backups, then the three data passes and the coding pass. */
  method Transform(fdata: array<Layer>, ffdata: array<Layer>, fcoding: array<Layer>, ccoding: array<Layer>,
                   k: nat, m: nat, bs: nat)
    requires fdata != ffdata && fdata != fcoding && fdata != ccoding
    requires ffdata != fcoding && ffdata != ccoding && fcoding != ccoding
    requires ffdata.Length == Layers && ccoding.Length == Layers
    requires Input(fdata[..], fcoding[..], k, m, bs)
    modifies fdata, ffdata, fcoding, ccoding
    ensures (fdata[..], ffdata[..]) == DataTransform(old(fdata[..]), k, bs)
    ensures (fcoding[..], ccoding[..]) == CodingTransform(old(fcoding[..]), m, bs)
  {
    ghost var F0, C0 := fdata[..], fcoding[..];
    CopyGrid(fdata, ffdata);
    CopyGrid(fcoding, ccoding);
    BackupShaped(F0, 1, 0, 2, k, bs);
    CouplePass(fdata, ffdata, 1, 0, 2, k, bs);
    assert (fdata[..], ffdata[..]) == DataAfterFirst(F0, k, bs);
    CouplePass(fdata, ffdata, 2, 2, 8, k, bs);
    assert (fdata[..], ffdata[..]) == DataAfterSecond(F0, k, bs);
    CouplePass(fdata, ffdata, 4, 8, 10, k, bs);
    assert fcoding[..] == C0;
    CouplePass(fcoding, ccoding, CodingStride, 0, 4, m, bs);
  }

  // ---------------------------------------------------------------------
  // What the transform computes, cell by cell

  /** The encoder's literal layer tests are the lower/upper split for each
      stride: i % 2 == 0 (stride 1), i / 2 in {0, 2} (stride 2) and
      i / 4 == 0 (stride 4) pick the lower layers, and the other tests pick
      exactly the rest. */
  lemma SourceLayerTests(i: nat)
    requires i < Layers
    ensures (i % 2 == 0 <==> IsLower(i, 1)) && (i % 2 != 0 <==> !IsLower(i, 1))
    ensures (i / 2 == 0 || i / 2 == 2 <==> IsLower(i, 2)) && (i / 2 == 1 || i / 2 == 3 <==> !IsLower(i, 2))
    ensures (i / 4 == 0 <==> IsLower(i, 4)) && (i / 4 == 1 <==> !IsLower(i, 4))
  {
  }

  /** A data cell no pass writes keeps its value: columns from 10 on, even
      columns of lower layers and odd columns of upper layers.  The backup
      keeps every cell but the coupled lower odd cells. */
  lemma DataUntouched(F: seq<Layer>, k: nat, bs: nat, i: nat, c: nat)
    requires k >= 10 && |F| == Layers && Shaped(F, k, bs)
    requires i < Layers && c < k
    ensures c >= 10 || (c % 2 == 1 <==> !IsLower(i, DataStride(c))) ==> DataTransform(F, k, bs).0[i][c] == F[i][c]
    ensures c >= 10 || !(c % 2 == 1 && IsLower(i, DataStride(c))) ==> DataTransform(F, k, bs).1[i][c] == F[i][c]
  {
    var (F1, B1) := DataAfterFirst(F, k, bs);
    var (F2, B2) := DataAfterSecond(F, k, bs);
    if c >= 10 || (c % 2 == 1 <==> !IsLower(i, DataStride(c))) {
      PassFrame(F, F, 1, 0, 2, k, bs, i, c);
      PassFrame(F1, B1, 2, 2, 8, k, bs, i, c);
      PassFrame(F2, B2, 4, 8, 10, k, bs, i, c);
    }
    if c >= 10 || !(c % 2 == 1 && IsLower(i, DataStride(c))) {
      BackupFrame(F, 1, 0, 2, i, c);
      BackupFrame(B1, 2, 2, 8, i, c);
      BackupFrame(B2, 4, 8, 10, i, c);
    }
  }

  /** The coupled data pair.  For an odd column c < 10 of stride s and a
      lower layer i, with a = F[i][c] and b = F[i + s][c - 1] before the
      transform: fdata[i][c] = a + b, fdata[i + s][c - 1] = b + e[c / 2] * a
      and ffdata[i][c] = e[c / 2] * a. */
  lemma DataPair(F: seq<Layer>, k: nat, bs: nat, i: nat, c: nat)
    requires k >= 10 && |F| == Layers && Shaped(F, k, bs)
    requires i < Layers && c < 10 && c % 2 == 1 && IsLower(i, DataStride(c))
    ensures i + DataStride(c) < Layers
    ensures DataTransform(F, k, bs).0[i][c] == Xor(F[i][c], F[i + DataStride(c)][c - 1])
    ensures DataTransform(F, k, bs).0[i + DataStride(c)][c - 1] ==
      Xor(F[i + DataStride(c)][c - 1], Scale(E[c / 2], F[i][c]))
    ensures DataTransform(F, k, bs).1[i][c] == Scale(E[c / 2], F[i][c])
  {
    PartnerInRange(i, DataStride(c), Layers);
    LowerSuccessor(i, DataStride(c));
    if c < 2 {
      PairOfFirstPass(F, k, bs, i, c);
    } else if c < 8 {
      PairOfSecondPass(F, k, bs, i, c);
    } else {
      PairOfThirdPass(F, k, bs, i, c);
    }
  }

  /** Cell (i, c) and its partner (u, c - 1) of a pair; the frame lemmas of
      the passes outside column c's window carry them through unchanged. */
  lemma PairOfFirstPass(F: seq<Layer>, k: nat, bs: nat, i: nat, c: nat)
    requires k >= 10 && |F| == Layers && Shaped(F, k, bs)
    requires i + 1 < Layers && c < 2 && c % 2 == 1 && IsLower(i, 1) && !IsLower(i + 1, 1)
    ensures DataTransform(F, k, bs).0[i][c] == Xor(F[i][c], F[i + 1][c - 1])
    ensures DataTransform(F, k, bs).0[i + 1][c - 1] == Xor(F[i + 1][c - 1], Scale(E[c / 2], F[i][c]))
    ensures DataTransform(F, k, bs).1[i][c] == Scale(E[c / 2], F[i][c])
  {
    var (F1, B1) := DataAfterFirst(F, k, bs);
    var (F2, B2) := DataAfterSecond(F, k, bs);
    PassPair(F, F, 1, 0, 2, k, bs, i, c);
    PassFrame(F1, B1, 2, 2, 8, k, bs, i, c);
    PassFrame(F1, B1, 2, 2, 8, k, bs, i + 1, c - 1);
    BackupFrame(B1, 2, 2, 8, i, c);
    PassFrame(F2, B2, 4, 8, 10, k, bs, i, c);
    PassFrame(F2, B2, 4, 8, 10, k, bs, i + 1, c - 1);
    BackupFrame(B2, 4, 8, 10, i, c);
  }

  lemma PairOfSecondPass(F: seq<Layer>, k: nat, bs: nat, i: nat, c: nat)
    requires k >= 10 && |F| == Layers && Shaped(F, k, bs)
    requires i + 2 < Layers && 2 <= c < 8 && c % 2 == 1 && IsLower(i, 2) && !IsLower(i + 2, 2)
    ensures DataTransform(F, k, bs).0[i][c] == Xor(F[i][c], F[i + 2][c - 1])
    ensures DataTransform(F, k, bs).0[i + 2][c - 1] == Xor(F[i + 2][c - 1], Scale(E[c / 2], F[i][c]))
    ensures DataTransform(F, k, bs).1[i][c] == Scale(E[c / 2], F[i][c])
  {
    var (F1, B1) := DataAfterFirst(F, k, bs);
    var (F2, B2) := DataAfterSecond(F, k, bs);
    PassFrame(F, F, 1, 0, 2, k, bs, i, c);
    PassFrame(F, F, 1, 0, 2, k, bs, i + 2, c - 1);
    BackupFrame(F, 1, 0, 2, i, c);
    PassPair(F1, B1, 2, 2, 8, k, bs, i, c);
    PassFrame(F2, B2, 4, 8, 10, k, bs, i, c);
    PassFrame(F2, B2, 4, 8, 10, k, bs, i + 2, c - 1);
    BackupFrame(B2, 4, 8, 10, i, c);
  }

  lemma PairOfThirdPass(F: seq<Layer>, k: nat, bs: nat, i: nat, c: nat)
    requires k >= 10 && |F| == Layers && Shaped(F, k, bs)
    requires i + 4 < Layers && 8 <= c < 10 && c % 2 == 1 && IsLower(i, 4) && !IsLower(i + 4, 4)
    ensures DataTransform(F, k, bs).0[i][c] == Xor(F[i][c], F[i + 4][c - 1])
    ensures DataTransform(F, k, bs).0[i + 4][c - 1] == Xor(F[i + 4][c - 1], Scale(E[c / 2], F[i][c]))
    ensures DataTransform(F, k, bs).1[i][c] == Scale(E[c / 2], F[i][c])
  {
    var (F1, B1) := DataAfterFirst(F, k, bs);
    var (F2, B2) := DataAfterSecond(F, k, bs);
    PassFrame(F, F, 1, 0, 2, k, bs, i, c);
    PassFrame(F, F, 1, 0, 2, k, bs, i + 4, c - 1);
    BackupFrame(F, 1, 0, 2, i, c);
    PassFrame(F1, B1, 2, 2, 8, k, bs, i, c);
    PassFrame(F1, B1, 2, 2, 8, k, bs, i + 4, c - 1);
    BackupFrame(B1, 2, 2, 8, i, c);
    PassPair(F2, B2, 4, 8, 10, k, bs, i, c);
  }

  /** A coding cell the coding pass does not write keeps its value: columns
      from 4 on, even columns of lower layers and odd columns of upper
      layers.  The backup keeps every cell but the coupled lower odd
      cells. */
  lemma CodingUntouched(C: seq<Layer>, m: nat, bs: nat, i: nat, c: nat)
    requires m >= 4 && |C| == Layers && Shaped(C, m, bs)
    requires i < Layers && c < m
    ensures c >= 4 || (c % 2 == 1 <==> !IsLower(i, CodingStride)) ==> CodingTransform(C, m, bs).0[i][c] == C[i][c]
    ensures c >= 4 || !(c % 2 == 1 && IsLower(i, CodingStride)) ==> CodingTransform(C, m, bs).1[i][c] == C[i][c]
  {
    if c >= 4 || (c % 2 == 1 <==> !IsLower(i, CodingStride)) {
      PassFrame(C, C, CodingStride, 0, 4, m, bs, i, c);
    }
    if c >= 4 || !(c % 2 == 1 && IsLower(i, CodingStride)) {
      BackupFrame(C, CodingStride, 0, 4, i, c);
    }
  }

  /** The coupled coding pair, for odd columns c < 4 and lower layers i. */
  lemma CodingPair(C: seq<Layer>, m: nat, bs: nat, i: nat, c: nat)
    requires m >= 4 && |C| == Layers && Shaped(C, m, bs)
    requires i < Layers && c < 4 && c % 2 == 1 && IsLower(i, CodingStride)
    ensures i + CodingStride < Layers
    ensures CodingTransform(C, m, bs).0[i][c] == Xor(C[i][c], C[i + CodingStride][c - 1])
    ensures CodingTransform(C, m, bs).0[i + CodingStride][c - 1] ==
      Xor(C[i + CodingStride][c - 1], Scale(E[c / 2], C[i][c]))
    ensures CodingTransform(C, m, bs).1[i][c] == Scale(E[c / 2], C[i][c])
  {
    PassPair(C, C, CodingStride, 0, 4, m, bs, i, c);
  }

  // ---------------------------------------------------------------------
  // The transform can be undone

  /** Given the coupled pair (a + b, b + e * a), a is (1 + e)^-1 times the
      sum of the two cells and b is the lower cell plus a. */
  function Uncouple(e: Byte, lower: Block, upper: Block): (ab: (Block, Block))
    requires |lower| == |upper|
    ensures |ab.0| == |lower| && |ab.1| == |lower|
  {
    var a := Scale(Inv(1 ^ e), Xor(lower, upper));
    (a, Xor(lower, a))
  }

  lemma UncoupleBlock(e: Byte, a: Block, b: Block)
    requires e in {20, 18, 17, 16, 15} && |a| == |b|
    ensures Uncouple(e, Xor(a, b), Xor(b, Scale(e, a))) == (a, b)
  {
    var lower, upper := Xor(a, b), Xor(b, Scale(e, a));
    var a' := Scale(Inv(1 ^ e), Xor(lower, upper));
    forall x | 0 <= x < |a|
      ensures a'[x] == a[x]
    {
      UncoupleAt(e, a, b, x);
    }
    assert a' == a;
    forall x | 0 <= x < |a|
      ensures Xor(lower, a)[x] == b[x]
    {
      XorIndex(lower, a, x);
      XorIndex(a, b, x);
    }
    assert Xor(lower, a) == b;
  }

  /** Byte x of the recovered lower block. */
  lemma UncoupleAt(e: Byte, a: Block, b: Block, x: nat)
    requires e in {20, 18, 17, 16, 15} && |a| == |b| && x < |a|
    ensures Scale(Inv(1 ^ e), Xor(Xor(a, b), Xor(b, Scale(e, a))))[x] == a[x]
  {
    var lower, upper := Xor(a, b), Xor(b, Scale(e, a));
    var sum := Xor(lower, upper);
    assert sum[x] == (a[x] ^ b[x]) ^ (b[x] ^ Mul(e, a[x])) by {
      XorIndex(a, b, x);
      ScaleIndex(e, a, x);
      XorIndex(b, Scale(e, a), x);
      XorIndex(lower, upper, x);
    }
    ScaleIndex(Inv(1 ^ e), sum, x);
    UncoupleByte(e, a[x], b[x]);
  }

  /** Every coupled data pair determines the values it was made from. */
  lemma DataInvertible(F: seq<Layer>, k: nat, bs: nat, i: nat, c: nat)
    requires k >= 10 && |F| == Layers && Shaped(F, k, bs)
    requires i < Layers && c < 10 && c % 2 == 1 && IsLower(i, DataStride(c))
    ensures i + DataStride(c) < Layers
    ensures Uncouple(E[c / 2], DataTransform(F, k, bs).0[i][c], DataTransform(F, k, bs).0[i + DataStride(c)][c - 1])
      == (F[i][c], F[i + DataStride(c)][c - 1])
  {
    DataPair(F, k, bs, i, c);
    UncoupleBlock(E[c / 2], F[i][c], F[i + DataStride(c)][c - 1]);
  }

  /** Every coupled coding pair determines the values it was made from. */
  lemma CodingInvertible(C: seq<Layer>, m: nat, bs: nat, i: nat, c: nat)
    requires m >= 4 && |C| == Layers && Shaped(C, m, bs)
    requires i < Layers && c < 4 && c % 2 == 1 && IsLower(i, CodingStride)
    ensures i + CodingStride < Layers
    ensures Uncouple(E[c / 2], CodingTransform(C, m, bs).0[i][c], CodingTransform(C, m, bs).0[i + CodingStride][c - 1])
      == (C[i][c], C[i + CodingStride][c - 1])
  {
    CodingPair(C, m, bs, i, c);
    UncoupleBlock(E[c / 2], C[i][c], C[i + CodingStride][c - 1]);
  }
}
