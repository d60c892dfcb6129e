/** How the decoder reads one read-in of the fragment files
    (clay-decoder.c:311-398).  Data fragments 1 .. k and then coding
    fragments 1 .. m are opened in turn.  A fragment that cannot be opened
    is marked in `erased` and its index is appended to `erasures`; the M
    blocks of one that can are copied into its column of the layer grid,
    block j into layer j.  The list is closed with -1. */
module DecoderInput {
  import opened Gf
  import opened Grid
  import opened Optional
  import opened InverseCoupling

  /** A fragment file as the decoder finds it: None when it cannot be
      opened, otherwise the Layers blocks it reads from it. */
  type Fragment = Option<seq<Block>>

  /** An opened fragment yields one block of `bs` bytes per layer. */
  predicate Readable(f: Fragment, bs: nat) {
    f.Some? ==> |f.value| == Layers && forall j :: 0 <= j < Layers ==> |f.value[j]| == bs
  }

  predicate AllReadable(frags: seq<Fragment>, bs: nat) {
    forall i :: 0 <= i < |frags| ==> Readable(frags[i], bs)
  }

  // ---------------------------------------------------------------------
  // The erasure list

  /** The indices of the fragments that cannot be opened, in the order the
      decoder meets them. */
  function MissingList(frags: seq<Fragment>): (r: seq<int>)
    ensures |r| <= |frags|
  {
    if |frags| == 0 then []
    else MissingList(frags[..|frags| - 1]) + (if frags[|frags| - 1].None? then [|frags| - 1] else [])
  }

  /** The list holds exactly the missing fragments, each once, in ascending
      order, so data fragments (below k) come before coding fragments. */
  lemma {:induction false} MissingListSpec(frags: seq<Fragment>)
    ensures forall x :: x in MissingList(frags) <==> 0 <= x < |frags| && frags[x].None?
    ensures forall a, b :: 0 <= a < b < |MissingList(frags)| ==> MissingList(frags)[a] < MissingList(frags)[b]
    decreases |frags|
  {
    if |frags| > 0 {
      var front := frags[..|frags| - 1];
      MissingListSpec(front);
      assert forall x :: 0 <= x < |front| ==> front[x] == frags[x];
      forall a | 0 <= a < |MissingList(front)|
        ensures MissingList(front)[a] < |frags| - 1
      {
        assert MissingList(front)[a] in MissingList(front);
      }
    }
  }

  /** Visiting one more fragment appends its index when it is missing. */
  lemma MissingListStep(frags: seq<Fragment>, p: nat)
    requires p < |frags|
    ensures MissingList(frags[..p + 1]) == MissingList(frags[..p]) + (if frags[p].None? then [p] else [])
  {
    assert frags[..p + 1][..p] == frags[..p];
  }

  /** The flags after visiting fragments lo .. hi - 1: a missing fragment's
      flag is set, and no flag is ever cleared. */
  function Marked(erased: seq<bool>, frags: seq<Fragment>, lo: nat, hi: nat): (r: seq<bool>)
    requires hi <= |frags| == |erased|
    ensures |r| == |erased|
    ensures forall i :: 0 <= i < |r| ==> (r[i] <==> erased[i] || (lo <= i < hi && frags[i].None?))
  {
    seq(|erased|, i requires 0 <= i < |erased| => if lo <= i < hi then erased[i] || frags[i].None? else erased[i])
  }

  // ---------------------------------------------------------------------
  // Placing fragments in the grid

  /** Every layer of the grid gets block j of the fragment in column c. */
  function Place(g: seq<Layer>, c: nat, cols: nat, bs: nat, chunks: seq<Block>): (r: seq<Layer>)
    requires |g| == |chunks| && Shaped(g, cols, bs) && c < cols
    requires forall j :: 0 <= j < |chunks| ==> |chunks[j]| == bs
    ensures |r| == |g| && Shaped(r, cols, bs)
  {
    seq(|g|, j requires 0 <= j < |g| => g[j][c := chunks[j]])
  }

  /** The grid after fragments first .. first + n - 1 have been visited, the
      opened ones placed in columns 0 .. n - 1. */
  function Placed(g: seq<Layer>, frags: seq<Fragment>, first: nat, cols: nat, bs: nat, n: nat): (r: seq<Layer>)
    requires |g| == Layers && Shaped(g, cols, bs) && AllReadable(frags, bs)
    requires n <= cols && first + n <= |frags|
    ensures |r| == Layers && Shaped(r, cols, bs)
  {
    if n == 0 then g
    else
      var before := Placed(g, frags, first, cols, bs, n - 1);
      match frags[first + n - 1]
      case None => before
      case Some(chunks) => Place(before, n - 1, cols, bs, chunks)
  }

  /** Block j of an opened fragment ends up in layer j, in the fragment's
      column; the cells of a missing fragment, and of columns not yet
      visited, keep what they held. */
  lemma {:induction false} PlacedCell(g: seq<Layer>, frags: seq<Fragment>, first: nat, cols: nat, bs: nat, n: nat,
                                      j: nat, c: nat)
    requires |g| == Layers && Shaped(g, cols, bs) && AllReadable(frags, bs)
    requires n <= cols && first + n <= |frags| && j < Layers && c < cols
    ensures Placed(g, frags, first, cols, bs, n)[j][c] ==
              if c < n && frags[first + c].Some? then frags[first + c].value[j] else g[j][c]
    decreases n
  {
    if n > 0 {
      PlacedCell(g, frags, first, cols, bs, n - 1, j, c);
    }
  }

  /** The copy of one opened fragment into column c, layer by layer. */
  method PlaceColumn(grid: array<Layer>, c: nat, cols: nat, bs: nat, chunks: seq<Block>)
    requires grid.Length == |chunks| && Shaped(grid[..], cols, bs) && c < cols
    requires forall j :: 0 <= j < |chunks| ==> |chunks[j]| == bs
    modifies grid
    ensures grid[..] == Place(old(grid[..]), c, cols, bs, chunks)
  {
    ghost var g := grid[..];
    var j := 0;
    while j < grid.Length
      invariant 0 <= j <= grid.Length
      invariant forall t :: 0 <= t < j ==> grid[t] == g[t][c := chunks[t]]
      invariant forall t :: j <= t < grid.Length ==> grid[t] == g[t]
    {
      grid[j] := grid[j][c := chunks[j]];
      j := j + 1;
    }
    assert grid[..] == Place(g, c, cols, bs, chunks);
  }

  /** Visiting fragment p sets its flag when it is missing and leaves the
      flags alone otherwise. */
  lemma MarkedStep(erased: seq<bool>, frags: seq<Fragment>, lo: nat, p: nat)
    requires lo <= p < |frags| == |erased|
    ensures Marked(erased, frags, lo, p + 1) ==
              if frags[p].None? then Marked(erased, frags, lo, p)[p := true] else Marked(erased, frags, lo, p)
  {
  }

  /** A fragment that cannot be opened: its flag is set and its index is
      appended to the list. */
  method NoteMissing(erased: array<bool>, erasures: array<int>, idx: nat, numerased: nat) returns (n: nat)
    requires idx < erased.Length && numerased < erasures.Length
    modifies erased, erasures
    ensures erased[..] == old(erased[..])[idx := true]
    ensures n == numerased + 1 && erasures[..n] == old(erasures[..numerased]) + [idx]
  {
    erased[idx] := true;
    erasures[numerased] := idx;
    n := numerased + 1;
  }

  // ---------------------------------------------------------------------
  // The read-in

  /** The state after fragments first .. idx - 1 of a group have been
      visited. */
  predicate Visited(frags: seq<Fragment>, first: nat, count: nat, bs: nat, idx: nat,
                    g: seq<Layer>, e: seq<bool>,
                    grid: seq<Layer>, erased: seq<bool>, erasures: seq<int>, numerased: nat)
    requires |g| == Layers && Shaped(g, count, bs) && AllReadable(frags, bs)
    requires first <= idx <= first + count <= |frags| == |e|
  {
    && grid == Placed(g, frags, first, count, bs, idx - first)
    && erased == Marked(e, frags, first, idx)
    && numerased == |MissingList(frags[..idx])|
    && numerased <= |erasures| && erasures[..numerased] == MissingList(frags[..idx])
  }

  /** One turn of either loop: fragment idx, in column idx - first. */
  method VisitFragment(frags: seq<Fragment>, first: nat, count: nat, bs: nat, idx: nat,
                       grid: array<Layer>, erased: array<bool>, erasures: array<int>, numerased: nat,
                       ghost g: seq<Layer>, ghost e: seq<bool>)
    returns (n: nat)
    requires |g| == Layers && Shaped(g, count, bs) && AllReadable(frags, bs)
    requires first <= idx < first + count <= |frags| == |e| == erased.Length
    requires erasures.Length == |frags| + 1
    requires Visited(frags, first, count, bs, idx, g, e, grid[..], erased[..], erasures[..], numerased)
    modifies grid, erased, erasures
    ensures Visited(frags, first, count, bs, idx + 1, g, e, grid[..], erased[..], erasures[..], n)
  {
    MissingListStep(frags, idx);
    MarkedStep(e, frags, first, idx);
    match frags[idx] {
      case None =>
        n := NoteMissing(erased, erasures, idx, numerased);
      case Some(chunks) =>
        PlaceColumn(grid, idx - first, count, bs, chunks);
        n := numerased;
    }
  }

  /** One of the two loops: fragments first .. first + count - 1 (the data
      fragments with first = 0, count = k, or the coding fragments with
      first = k, count = m) into the columns of `grid`. */
  method ReadGroup(frags: seq<Fragment>, first: nat, count: nat, bs: nat,
                   grid: array<Layer>, erased: array<bool>, erasures: array<int>, numerased0: nat)
    returns (numerased: nat)
    requires grid.Length == Layers && Shaped(grid[..], count, bs) && AllReadable(frags, bs)
    requires first + count <= |frags| == erased.Length && erasures.Length == |frags| + 1
    requires numerased0 == |MissingList(frags[..first])|
    requires erasures[..numerased0] == MissingList(frags[..first])
    modifies grid, erased, erasures
    ensures grid[..] == Placed(old(grid[..]), frags, first, count, bs, count)
    ensures erased[..] == Marked(old(erased[..]), frags, first, first + count)
    ensures numerased == |MissingList(frags[..first + count])|
    ensures erasures[..numerased] == MissingList(frags[..first + count])
  {
    ghost var g := grid[..];
    ghost var e := erased[..];
    numerased := numerased0;
    var i := 1;
    while i <= count
      invariant 1 <= i <= count + 1
      invariant Visited(frags, first, count, bs, first + i - 1, g, e, grid[..], erased[..], erasures[..], numerased)
    {
      numerased := VisitFragment(frags, first, count, bs, first + i - 1, grid, erased, erasures, numerased, g, e);
      i := i + 1;
    }
  }

  /** Two groups of flags in a row mark the whole range. */
  lemma MarkedTwice(erased: seq<bool>, frags: seq<Fragment>, k: nat)
    requires k <= |frags| == |erased|
    ensures Marked(Marked(erased, frags, 0, k), frags, k, |frags|) == Marked(erased, frags, 0, |frags|)
  {
  }

  /** One read-in (clay-decoder.c:307-398): the data fragments into fdata,
      the coding fragments into fcoding, the flags of the missing ones set
      (and earlier flags kept), and the list of missing indices closed with
      -1.  `erasures` has one slot more than there are fragments, so the
      terminator always fits. */
  method ReadIn(frags: seq<Fragment>, k: nat, m: nat, bs: nat,
                fdata: array<Layer>, fcoding: array<Layer>, erased: array<bool>, erasures: array<int>)
    returns (numerased: nat)
    requires |frags| == k + m == erased.Length && erasures.Length == k + m + 1
    requires fdata.Length == Layers == fcoding.Length && fdata != fcoding
    requires Shaped(fdata[..], k, bs) && Shaped(fcoding[..], m, bs) && AllReadable(frags, bs)
    modifies fdata, fcoding, erased, erasures
    ensures fdata[..] == Placed(old(fdata[..]), frags, 0, k, bs, k)
    ensures fcoding[..] == Placed(old(fcoding[..]), frags, k, m, bs, m)
    ensures erased[..] == Marked(old(erased[..]), frags, 0, k + m)
    ensures numerased == |MissingList(frags)| && numerased < erasures.Length
    ensures erasures[..numerased + 1] == MissingList(frags) + [-1]
  {
    ghost var e := erased[..];
    assert frags[..0] == [];
    numerased := ReadGroup(frags, 0, k, bs, fdata, erased, erasures, 0);
    ghost var coding := fcoding[..];
    assert coding == old(fcoding[..]);
    numerased := ReadGroup(frags, k, m, bs, fcoding, erased, erasures, numerased);
    MarkedTwice(e, frags, k);
    assert frags[..k + m] == frags;
    erasures[numerased] := -1;
    assert erasures[..numerased + 1] == erasures[..numerased] + [-1];
  }

  /** Nothing bounds the number of missing fragments by m: when no fragment
      can be opened, all k + m indices are listed, and the terminator goes
      to index k + m, one past the k + m slots clay-decoder.c:223
      allocates. */
  lemma {:induction false} AllMissing(n: nat)
    ensures |MissingList(seq(n, _ => None))| == n
  {
    if n > 0 {
      var frags: seq<Fragment> := seq(n, _ => None);
      assert frags[..n - 1] == seq(n - 1, _ => None);
      AllMissing(n - 1);
    }
  }
}
