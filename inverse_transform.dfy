/** The decoder's whole inverse transform (clay-decoder.c:408-598): the
    backups ffdata and fcoding's copy ccoding are made, then five passes run
    over the data grid (column pairs 0-1 .. 8-9, strides 1 .. 16) and two over
    the coding grid (pairs 0-1 and 2-3, strides 32 and 64), each gated by the
    erased flags of the columns it touches.  The column pairs are disjoint,
    so every pair whose two gates are open is solved from the values it had
    before the transform, and every cell no pass writes keeps its value. */
module InverseTransform {
  import opened Gf
  import opened Grid
  import opened InverseCoupling

  /** The grids the transform takes: M layers of k data blocks (k >= 10, as
      the data pairs reach column 9) and m coding blocks (m >= 4, as the
      coding pairs reach column 3), and one erased flag per column. */
  predicate Input(F: seq<Layer>, C: seq<Layer>, erased: seq<bool>, k: nat, m: nat, bs: nat) {
    k >= 10 && m >= 4 && |erased| == k + m &&
    |F| == Layers && |C| == Layers && Shaped(F, k, bs) && Shaped(C, m, bs)
  }

  /** The strides of the data passes and of the coding passes. */
  const DataStrides: seq<nat> := [1, 2, 4, 8, 16]
  const CodingStrides: seq<nat> := [32, 64]

  // ---------------------------------------------------------------------
  // The gate table

  /** Data pass t works on columns 2t and 2t + 1.  The first pass gates each
      side on its own column; the others run a side only when both columns
      of the pair are present. */
  function DataPass(erased: seq<bool>, t: nat): (p: Pass)
    requires t < 5 && |erased| >= 10
    ensures Fits(p, Layers, 10) && p.lo == 2 * t && p.stride == DataStrides[t]
  {
    if t == 0 then Pass(1, 0, !erased[1], !erased[0])
    else
      var both := !erased[2 * t] && !erased[2 * t + 1];
      Pass(DataStrides[t], 2 * t, both, both)
  }

  /** Coding pass q works on coding columns 2q and 2q + 1 (columns k + 2q and
      k + 2q + 1 of the erased flags).  The lower side reads the flags of its
      pair; the upper side reads the flags of columns k + 2q and
      k + 2q - 1. */
  function CodingPass(erased: seq<bool>, k: nat, q: nat): (p: Pass)
    requires q < 2 && k >= 1 && |erased| >= k + 4
    ensures Fits(p, Layers, 4) && p.lo == 2 * q && p.stride == CodingStrides[q]
  {
    Pass(CodingStrides[q], 2 * q,
         !erased[k + 2 * q + 1] && !erased[k + 2 * q],
         !erased[k + 2 * q] && !erased[k + 2 * q - 1])
  }

  function DataPasses(erased: seq<bool>): (ps: seq<Pass>)
    requires |erased| >= 10
    ensures |ps| == 5
    ensures forall t :: 0 <= t < 5 ==> ps[t] == DataPass(erased, t)
  {
    seq(5, t requires 0 <= t < 5 => DataPass(erased, t))
  }

  function CodingPasses(erased: seq<bool>, k: nat): (ps: seq<Pass>)
    requires k >= 1 && |erased| >= k + 4
    ensures |ps| == 2
    ensures forall q :: 0 <= q < 2 ==> ps[q] == CodingPass(erased, k, q)
  {
    seq(2, q requires 0 <= q < 2 => CodingPass(erased, k, q))
  }

  // ---------------------------------------------------------------------
  // Specification: passes run one after another

  predicate AllFit(ps: seq<Pass>, n: nat, cols: nat) {
    forall j :: 0 <= j < |ps| ==> Fits(ps[j], n, cols)
  }

  /** The grid and backup after the passes ps, in order. */
  function ApplyPasses(F: seq<Layer>, B: seq<Layer>, ps: seq<Pass>, cols: nat, bs: nat): (r: (seq<Layer>, seq<Layer>))
    requires |F| == |B| && Shaped(F, cols, bs) && Shaped(B, cols, bs) && AllFit(ps, |F|, cols)
    ensures |r.0| == |F| && |r.1| == |F| && Shaped(r.0, cols, bs) && Shaped(r.1, cols, bs)
    decreases |ps|
  {
    if |ps| == 0 then (F, B)
    else
      var G := ApplyPasses(F, B, ps[..|ps| - 1], cols, bs);
      var p := ps[|ps| - 1];
      (SolvedGrid(G.0, G.1, p, cols, bs), SolvedBackup(G.0, G.1, p, cols, bs))
  }

  /** fdata and ffdata after the data passes. */
  function DataInverse(F: seq<Layer>, erased: seq<bool>, k: nat, bs: nat): (r: (seq<Layer>, seq<Layer>))
    requires k >= 10 && |erased| >= 10 && |F| == Layers && Shaped(F, k, bs)
    ensures |r.0| == Layers && |r.1| == Layers && Shaped(r.0, k, bs) && Shaped(r.1, k, bs)
  {
    ApplyPasses(F, F, DataPasses(erased), k, bs)
  }

  /** fcoding and ccoding after the coding passes. */
  function CodingInverse(C: seq<Layer>, erased: seq<bool>, k: nat, m: nat, bs: nat): (r: (seq<Layer>, seq<Layer>))
    requires k >= 1 && m >= 4 && |erased| >= k + 4 && |C| == Layers && Shaped(C, m, bs)
    ensures |r.0| == Layers && |r.1| == Layers && Shaped(r.0, m, bs) && Shaped(r.1, m, bs)
  {
    ApplyPasses(C, C, CodingPasses(erased, k), m, bs)
  }

  // ---------------------------------------------------------------------
  // The transform as the decoder runs it

  /** The backup copies, the five data passes and the two coding passes. */
  method InverseTransform(fdata: array<Layer>, ffdata: array<Layer>, fcoding: array<Layer>, ccoding: array<Layer>,
                          erased: seq<bool>, k: nat, m: nat, bs: nat)
    requires fdata != ffdata && fdata != fcoding && fdata != ccoding
    requires ffdata != fcoding && ffdata != ccoding && fcoding != ccoding
    requires ffdata.Length == Layers && ccoding.Length == Layers
    requires Input(fdata[..], fcoding[..], erased, k, m, bs)
    modifies fdata, ffdata, fcoding, ccoding
    ensures (fdata[..], ffdata[..]) == DataInverse(old(fdata[..]), erased, k, bs)
    ensures (fcoding[..], ccoding[..]) == CodingInverse(old(fcoding[..]), erased, k, m, bs)
  {
    ghost var F0, C0 := fdata[..], fcoding[..];
    ghost var ps, qs := DataPasses(erased), CodingPasses(erased, k);
    CopyGrid(fdata, ffdata);
    CopyGrid(fcoding, ccoding);
    PrefixStep(F0, F0, ps, k, bs, 0);
    InversePass(fdata, ffdata, DataPass(erased, 0), k, bs);
    PrefixStep(F0, F0, ps, k, bs, 1);
    InversePass(fdata, ffdata, DataPass(erased, 1), k, bs);
    PrefixStep(F0, F0, ps, k, bs, 2);
    InversePass(fdata, ffdata, DataPass(erased, 2), k, bs);
    PrefixStep(F0, F0, ps, k, bs, 3);
    InversePass(fdata, ffdata, DataPass(erased, 3), k, bs);
    PrefixStep(F0, F0, ps, k, bs, 4);
    InversePass(fdata, ffdata, DataPass(erased, 4), k, bs);
    assert ps[..5] == ps;
    assert fcoding[..] == C0 && ccoding[..] == C0;
    PrefixStep(C0, C0, qs, m, bs, 0);
    InversePass(fcoding, ccoding, CodingPass(erased, k, 0), m, bs);
    PrefixStep(C0, C0, qs, m, bs, 1);
    InversePass(fcoding, ccoding, CodingPass(erased, k, 1), m, bs);
    assert qs[..2] == qs;
  }

  /** Running the passes ps[..t + 1] is running ps[..t], then ps[t]. */
  lemma PrefixStep(F: seq<Layer>, B: seq<Layer>, ps: seq<Pass>, cols: nat, bs: nat, t: nat)
    requires |F| == |B| && Shaped(F, cols, bs) && Shaped(B, cols, bs) && AllFit(ps, |F|, cols)
    requires t < |ps|
    ensures ApplyPasses(F, B, ps[..0], cols, bs) == (F, B)
    ensures var G := ApplyPasses(F, B, ps[..t], cols, bs);
      PassShape(G.0, G.1, ps[t], cols, bs) &&
      ApplyPasses(F, B, ps[..t + 1], cols, bs) ==
        (SolvedGrid(G.0, G.1, ps[t], cols, bs), SolvedBackup(G.0, G.1, ps[t], cols, bs))
  {
    assert ps[..t + 1][..t] == ps[..t];
  }

  // ---------------------------------------------------------------------
  // Running passes one after another

  /** Running ps1 then ps2 is running ps1 + ps2. */
  lemma {:induction false} ApplyAppend(F: seq<Layer>, B: seq<Layer>, ps1: seq<Pass>, ps2: seq<Pass>, cols: nat, bs: nat)
    requires |F| == |B| && Shaped(F, cols, bs) && Shaped(B, cols, bs)
    requires AllFit(ps1, |F|, cols) && AllFit(ps2, |F|, cols)
    ensures AllFit(ps1 + ps2, |F|, cols)
    ensures ApplyPasses(F, B, ps1 + ps2, cols, bs) ==
      ApplyPasses(ApplyPasses(F, B, ps1, cols, bs).0, ApplyPasses(F, B, ps1, cols, bs).1, ps2, cols, bs)
    decreases |ps2|
  {
    if |ps2| > 0 {
      var n := |ps2|;
      assert (ps1 + ps2)[..|ps1 + ps2| - 1] == ps1 + ps2[..n - 1];
      ApplyAppend(F, B, ps1, ps2[..n - 1], cols, bs);
    } else {
      assert ps1 + ps2 == ps1;
    }
  }

  /** Pass p works on the column pair (lo, lo + 1). */
  predicate Touches(p: Pass, c: nat) {
    c == p.lo || c == p.lo + 1
  }

  /** A column outside the pair of every pass of ps keeps its cells, in the
      grid and in the backup. */
  lemma {:induction false} Untouched(F: seq<Layer>, B: seq<Layer>, ps: seq<Pass>, cols: nat, bs: nat, i: nat, c: nat)
    requires |F| == |B| && Shaped(F, cols, bs) && Shaped(B, cols, bs) && AllFit(ps, |F|, cols)
    requires i < |F| && c < cols
    requires forall j :: 0 <= j < |ps| ==> !Touches(ps[j], c)
    ensures ApplyPasses(F, B, ps, cols, bs).0[i][c] == F[i][c]
    ensures ApplyPasses(F, B, ps, cols, bs).1[i][c] == B[i][c]
    decreases |ps|
  {
    if |ps| > 0 {
      var n := |ps|;
      var G := ApplyPasses(F, B, ps[..n - 1], cols, bs);
      Untouched(F, B, ps[..n - 1], cols, bs, i, c);
      PassFrame(G.0, G.1, ps[n - 1], cols, bs, i, c);
    }
  }

  /** Running ps is running the passes before t, pass t, then the passes
      after t. */
  lemma {:induction false} SplitAt(F: seq<Layer>, B: seq<Layer>, ps: seq<Pass>, cols: nat, bs: nat, t: nat, G: (seq<Layer>, seq<Layer>))
    requires |F| == |B| && Shaped(F, cols, bs) && Shaped(B, cols, bs) && AllFit(ps, |F|, cols)
    requires t < |ps| && AllFit(ps[..t], |F|, cols) && G == ApplyPasses(F, B, ps[..t], cols, bs)
    ensures PassShape(G.0, G.1, ps[t], cols, bs) && AllFit(ps[t + 1..], |F|, cols)
    ensures ApplyPasses(F, B, ps, cols, bs) ==
      ApplyPasses(SolvedGrid(G.0, G.1, ps[t], cols, bs), SolvedBackup(G.0, G.1, ps[t], cols, bs), ps[t + 1..], cols, bs)
  {
    PrefixStep(F, B, ps, cols, bs, t);
    CutFits(ps, |F|, cols, t + 1);
    ApplyAppend(F, B, ps[..t + 1], ps[t + 1..], cols, bs);
  }

  /** Both parts of a list of fitting passes fit, and put together they give
      the list back. */
  lemma CutFits(ps: seq<Pass>, n: nat, cols: nat, t: nat)
    requires AllFit(ps, n, cols) && t <= |ps|
    ensures AllFit(ps[..t], n, cols) && AllFit(ps[t..], n, cols)
    ensures ps[..t] + ps[t..] == ps
  {
    forall j | 0 <= j < t
      ensures Fits(ps[..t][j], n, cols)
    {
      assert ps[..t][j] == ps[j];
    }
    forall j | 0 <= j < |ps| - t
      ensures Fits(ps[t..][j], n, cols)
    {
      assert ps[t..][j] == ps[t + j];
    }
  }

  // ---------------------------------------------------------------------
  // What the transform computes

  /** The first pass's tests (i even / odd) and the later ones
      (i - (i / 2s) * 2s below or at least s) are the lower/upper split. */
  lemma SourceLayerTests(i: nat, s: nat)
    requires s > 0
    ensures (i % 2 == 0 <==> IsLower(i, 1)) && (i % 2 != 0 <==> !IsLower(i, 1))
    ensures (i - (i / (2 * s)) * (2 * s) < s <==> IsLower(i, s))
    ensures (i - (i / (2 * s)) * (2 * s) >= s <==> !IsLower(i, s))
  {
    SourceLowerTest(i, s);
  }

  /** A side runs only when the column it writes is present: no pass writes
      into a column marked erased. */
  lemma GatesGuardWrites(erased: seq<bool>, k: nat, t: nat, q: nat)
    requires k >= 10 && |erased| >= k + 4 && t < 5 && q < 2
    ensures DataPass(erased, t).lowerOpen ==> !erased[2 * t + 1]
    ensures DataPass(erased, t).upperOpen ==> !erased[2 * t]
    ensures CodingPass(erased, k, q).lowerOpen ==> !erased[k + 2 * q + 1]
    ensures CodingPass(erased, k, q).upperOpen ==> !erased[k + 2 * q]
  {
  }

  /** The first pass gates its lower side on column 1 alone: with column 0
      erased and column 1 present, the lower side still runs, reading the
      erased column 0 of the partner layer, while the upper side stays
      closed. */
  lemma FirstPassLowerIgnoresPartner(erased: seq<bool>)
    requires |erased| >= 10 && erased[0] && !erased[1]
    ensures DataPass(erased, 0).lowerOpen && !DataPass(erased, 0).upperOpen
  {
  }

  /** The upper side of coding pass q reads the flags of columns k + 2q and
      k + 2q - 1 (data column k - 1 for q = 0), not those of its own pair:
      with only column k + 2q - 1 erased, the lower side runs and the upper
      side does not. */
  lemma CodingUpperReadsLeftNeighbour(erased: seq<bool>, k: nat, q: nat)
    requires k >= 1 && |erased| >= k + 4 && q < 2
    requires erased[k + 2 * q - 1] && !erased[k + 2 * q] && !erased[k + 2 * q + 1]
    ensures CodingPass(erased, k, q).lowerOpen && !CodingPass(erased, k, q).upperOpen
  {
  }

  /** A data cell the pass of its column pair does not write (and every
      cell from column 10 on) comes out of the transform unchanged, in
      fdata and in ffdata. */
  lemma {:induction false} DataUntouched(F: seq<Layer>, erased: seq<bool>, k: nat, bs: nat, i: nat, c: nat)
    requires k >= 10 && |erased| >= 10 && |F| == Layers && Shaped(F, k, bs)
    requires i < Layers && c < k
    ensures c >= 10 || !Writes(DataPass(erased, c / 2), i, c) ==> DataInverse(F, erased, k, bs).0[i][c] == F[i][c]
    ensures c >= 10 || !BackupWrites(DataPass(erased, c / 2), i, c) ==> DataInverse(F, erased, k, bs).1[i][c] == F[i][c]
  {
    var ps := DataPasses(erased);
    if c >= 10 {
      Untouched(F, F, ps, k, bs, i, c);
    } else {
      var t := c / 2;
      var before, after := ps[..t], ps[t + 1..];
      assert forall j :: 0 <= j < |before| ==> before[j] == ps[j];
      assert forall j :: 0 <= j < |after| ==> after[j] == ps[t + 1 + j];
      var G := ApplyPasses(F, F, before, k, bs);
      SplitAt(F, F, ps, k, bs, t, G);
      Untouched(F, F, before, k, bs, i, c);
      PassFrame(G.0, G.1, ps[t], k, bs, i, c);
      var H := (SolvedGrid(G.0, G.1, ps[t], k, bs), SolvedBackup(G.0, G.1, ps[t], k, bs));
      Untouched(H.0, H.1, after, k, bs, i, c);
    }
  }

  /** A coding cell the pass of its column pair does not write (and every
      cell from coding column 4 on) comes out of the transform unchanged,
      in fcoding and in ccoding. */
  lemma {:induction false} CodingUntouched(C: seq<Layer>, erased: seq<bool>, k: nat, m: nat, bs: nat, i: nat, c: nat)
    requires k >= 1 && m >= 4 && |erased| >= k + 4 && |C| == Layers && Shaped(C, m, bs)
    requires i < Layers && c < m
    ensures c >= 4 || !Writes(CodingPass(erased, k, c / 2), i, c) ==> CodingInverse(C, erased, k, m, bs).0[i][c] == C[i][c]
    ensures c >= 4 || !BackupWrites(CodingPass(erased, k, c / 2), i, c) ==> CodingInverse(C, erased, k, m, bs).1[i][c] == C[i][c]
  {
    var qs := CodingPasses(erased, k);
    if c >= 4 {
      Untouched(C, C, qs, m, bs, i, c);
    } else {
      var q := c / 2;
      var before, after := qs[..q], qs[q + 1..];
      assert forall j :: 0 <= j < |before| ==> before[j] == qs[j];
      assert forall j :: 0 <= j < |after| ==> after[j] == qs[q + 1 + j];
      var G := ApplyPasses(C, C, before, m, bs);
      SplitAt(C, C, qs, m, bs, q, G);
      Untouched(C, C, before, m, bs, i, c);
      PassFrame(G.0, G.1, qs[q], m, bs, i, c);
      var H := (SolvedGrid(G.0, G.1, qs[q], m, bs), SolvedBackup(G.0, G.1, qs[q], m, bs));
      Untouched(H.0, H.1, after, m, bs, i, c);
    }
  }

  /** Pass t of a list of passes solves a pair when no other pass works on
      its columns: with lower cell a + 2b and upper cell 2a + b before the
      passes, and both gates of pass t open, the lower cell ends as a, the
      upper cell as b, and the backup of the lower cell holds 2a. */
  lemma {:induction false} SolvedThroughPasses(F: seq<Layer>, B: seq<Layer>, ps: seq<Pass>, cols: nat, bs: nat,
                            t: nat, i: nat, u: nat, a: Block, b: Block)
    requires |F| == |B| && Shaped(F, cols, bs) && Shaped(B, cols, bs) && AllFit(ps, |F|, cols)
    requires t < |ps| && i < |F| && IsLower(i, ps[t].stride) && u == i + ps[t].stride && u < |F|
    requires ps[t].lowerOpen && ps[t].upperOpen && |a| == |b| == bs
    requires forall j :: 0 <= j < |ps| && j != t ==> !Touches(ps[j], ps[t].lo) && !Touches(ps[j], ps[t].lo + 1)
    requires F[i][ps[t].lo + 1] == Xor(a, Scale(2, b))
    requires F[u][ps[t].lo] == Xor(Scale(2, a), b)
    ensures ApplyPasses(F, B, ps, cols, bs).0[i][ps[t].lo + 1] == a
    ensures ApplyPasses(F, B, ps, cols, bs).0[u][ps[t].lo] == b
    ensures ApplyPasses(F, B, ps, cols, bs).1[i][ps[t].lo + 1] == Scale(2, a)
  {
    var p := ps[t];
    var before, after := ps[..t], ps[t + 1..];
    OthersAvoid(ps, t, p.lo, before, after);
    var G := ApplyPasses(F, B, before, cols, bs);
    SplitAt(F, B, ps, cols, bs, t, G);
    PairKept(F, B, before, cols, bs, i, u, p.lo, Xor(a, Scale(2, b)), Xor(Scale(2, a), b), B[i][p.lo + 1]);
    PassSolvesPair(G.0, G.1, p, cols, bs, i, u, a, b);
    var H0, H1 := SolvedGrid(G.0, G.1, p, cols, bs), SolvedBackup(G.0, G.1, p, cols, bs);
    PairKept(H0, H1, after, cols, bs, i, u, p.lo, a, b, Scale(2, a));
  }

  /** When no pass but pass t works on columns lo and lo + 1, neither do the
      passes before t nor those after it. */
  lemma OthersAvoid(ps: seq<Pass>, t: nat, lo: nat, before: seq<Pass>, after: seq<Pass>)
    requires t < |ps| && before == ps[..t] && after == ps[t + 1..]
    requires forall j :: 0 <= j < |ps| && j != t ==> !Touches(ps[j], lo) && !Touches(ps[j], lo + 1)
    ensures forall j :: 0 <= j < |before| ==> !Touches(before[j], lo) && !Touches(before[j], lo + 1)
    ensures forall j :: 0 <= j < |after| ==> !Touches(after[j], lo) && !Touches(after[j], lo + 1)
  {
    forall j | 0 <= j < |before|
      ensures before[j] == ps[j]
    {
    }
    forall j | 0 <= j < |after|
      ensures after[j] == ps[t + 1 + j]
    {
    }
  }

  /** Passes that work on other columns keep the pair (i, lo + 1), (u, lo)
      and the backup of the lower cell: cells holding x, y and z hold them
      after the passes. */
  lemma PairKept(F: seq<Layer>, B: seq<Layer>, ps: seq<Pass>, cols: nat, bs: nat, i: nat, u: nat, lo: nat,
                 x: Block, y: Block, z: Block)
    requires |F| == |B| && Shaped(F, cols, bs) && Shaped(B, cols, bs) && AllFit(ps, |F|, cols)
    requires i < |F| && u < |F| && lo + 1 < cols
    requires forall j :: 0 <= j < |ps| ==> !Touches(ps[j], lo) && !Touches(ps[j], lo + 1)
    requires F[i][lo + 1] == x && F[u][lo] == y && B[i][lo + 1] == z
    ensures ApplyPasses(F, B, ps, cols, bs).0[i][lo + 1] == x
    ensures ApplyPasses(F, B, ps, cols, bs).0[u][lo] == y
    ensures ApplyPasses(F, B, ps, cols, bs).1[i][lo + 1] == z
  {
    Untouched(F, B, ps, cols, bs, i, lo + 1);
    Untouched(F, B, ps, cols, bs, u, lo);
  }

  /** Data pair t: with the lower cell (i, 2t + 1) holding a + 2b and its
      upper partner (i + s, 2t) holding 2a + b, and both gates of pass t
      open, the transform leaves a and b in the two cells and 2a in the
      backup. */
  lemma DataSolvesPair(F: seq<Layer>, erased: seq<bool>, k: nat, bs: nat, t: nat, i: nat, a: Block, b: Block)
    requires k >= 10 && |erased| >= 10 && |F| == Layers && Shaped(F, k, bs)
    requires t < 5 && i < Layers && IsLower(i, DataStrides[t])
    requires DataPass(erased, t).lowerOpen && DataPass(erased, t).upperOpen && |a| == |b| == bs
    ensures i + DataStrides[t] < Layers
    ensures F[i][2 * t + 1] == Xor(a, Scale(2, b)) && F[i + DataStrides[t]][2 * t] == Xor(Scale(2, a), b) ==>
      DataInverse(F, erased, k, bs).0[i][2 * t + 1] == a &&
      DataInverse(F, erased, k, bs).0[i + DataStrides[t]][2 * t] == b &&
      DataInverse(F, erased, k, bs).1[i][2 * t + 1] == Scale(2, a)
  {
    var ps := DataPasses(erased);
    var s := DataStrides[t];
    assert ps[t].lo == 2 * t && ps[t].stride == s;
    PartnerInRange(i, s, Layers);
    if F[i][2 * t + 1] == Xor(a, Scale(2, b)) && F[i + s][2 * t] == Xor(Scale(2, a), b) {
      var R := ApplyPasses(F, F, ps, k, bs);
      assert DataInverse(F, erased, k, bs) == R;
      SolvedThroughPasses(F, F, ps, k, bs, t, i, i + s, a, b);
      assert R.0[i][2 * t + 1] == a && R.0[i + s][2 * t] == b && R.1[i][2 * t + 1] == Scale(2, a);
    }
  }

  /** Coding pair q, in the same terms as DataSolvesPair. */
  lemma CodingSolvesPair(C: seq<Layer>, erased: seq<bool>, k: nat, m: nat, bs: nat, q: nat, i: nat, a: Block, b: Block)
    requires k >= 1 && m >= 4 && |erased| >= k + 4 && |C| == Layers && Shaped(C, m, bs)
    requires q < 2 && i < Layers && IsLower(i, CodingStrides[q])
    requires CodingPass(erased, k, q).lowerOpen && CodingPass(erased, k, q).upperOpen && |a| == |b| == bs
    ensures i + CodingStrides[q] < Layers
    ensures C[i][2 * q + 1] == Xor(a, Scale(2, b)) && C[i + CodingStrides[q]][2 * q] == Xor(Scale(2, a), b) ==>
      CodingInverse(C, erased, k, m, bs).0[i][2 * q + 1] == a &&
      CodingInverse(C, erased, k, m, bs).0[i + CodingStrides[q]][2 * q] == b &&
      CodingInverse(C, erased, k, m, bs).1[i][2 * q + 1] == Scale(2, a)
  {
    var qs := CodingPasses(erased, k);
    var s := CodingStrides[q];
    CodingPassesApart(erased, k, q, qs);
    PartnerInRange(i, s, Layers);
    if C[i][2 * q + 1] == Xor(a, Scale(2, b)) && C[i + s][2 * q] == Xor(Scale(2, a), b) {
      var R := ApplyPasses(C, C, qs, m, bs);
      assert CodingInverse(C, erased, k, m, bs) == R;
      SolvedThroughPasses(C, C, qs, m, bs, q, i, i + s, a, b);
    }
  }

  /** Coding pass q is the only coding pass on columns 2q and 2q + 1. */
  lemma CodingPassesApart(erased: seq<bool>, k: nat, q: nat, qs: seq<Pass>)
    requires k >= 1 && |erased| >= k + 4 && q < 2 && qs == CodingPasses(erased, k)
    ensures qs[q] == CodingPass(erased, k, q) && qs[q].lo == 2 * q && qs[q].stride == CodingStrides[q]
    ensures forall j :: 0 <= j < |qs| && j != q ==> !Touches(qs[j], 2 * q) && !Touches(qs[j], 2 * q + 1)
  {
    assert qs[1 - q].lo == 2 * (1 - q);
  }
}
