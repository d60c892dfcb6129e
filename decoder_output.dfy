/** What the decoder does with one read-in once the layers are in place
    (clay-decoder.c:600-660): it picks the base decoder by technique,
    stops when decoding reports failure, and appends the data layers to the
    decoded file, cut at the original size. */
module DecoderOutput {
  import opened Gf
  import opened Grid
  import opened InverseCoupling
  import Params

  // ---------------------------------------------------------------------
  // Choosing the base decoder

  /** The three branches of the dispatch: Reed-Solomon decodes layer by
      layer, the bit-matrix codes decode once by schedule, and any other
      technique ends the run. */
  datatype DecodePath = PerLayer | BySchedule | NotValid

  function PathOf(t: Params.Technique): (r: DecodePath)
    ensures r == PerLayer <==> t == Params.ReedSolVan || t == Params.ReedSolR6Op
    ensures r == NotValid <==> t == Params.NoCoding
  {
    match t
    case ReedSolVan => PerLayer
    case ReedSolR6Op => PerLayer
    case NoCoding => NotValid
    case _ => BySchedule
  }

  /** How a read-in ends: the technique is refused, decoding failed, or the
      decoded bytes are written. */
  datatype Outcome = InvalidTechnique | Unsuccessful | Decoded

  /** The outcome as the source decides it.  The base decoder is not part
      of this model: `statuses` holds what jerasure_matrix_decode returns
      for each layer and `scheduleStatus` what jerasure_schedule_decode_lazy
      returns.  Every layer's status lands in the same variable, so only
      the last layer's status is looked at. */
  function AsWritten(path: DecodePath, statuses: seq<int>, scheduleStatus: int): Outcome
    requires |statuses| == Layers
  {
    match path
    case NotValid => InvalidTechnique
    case PerLayer => if statuses[Layers - 1] == -1 then Unsuccessful else Decoded
    case BySchedule => if scheduleStatus == -1 then Unsuccessful else Decoded
  }

  /** The outcome as evidently intended: the read-in fails when any layer
      fails. */
  function Checked(path: DecodePath, statuses: seq<int>, scheduleStatus: int): Outcome
    requires |statuses| == Layers
  {
    match path
    case NotValid => InvalidTechnique
    case PerLayer => if -1 in statuses then Unsuccessful else Decoded
    case BySchedule => if scheduleStatus == -1 then Unsuccessful else Decoded
  }

  /** The dispatch and the status check as written (clay-decoder.c:603-632). */
  method DecodeStep(path: DecodePath, statuses: seq<int>, scheduleStatus: int) returns (r: Outcome)
    requires |statuses| == Layers
    ensures r == AsWritten(path, statuses, scheduleStatus)
    ensures r == InvalidTechnique <==> path == NotValid
    ensures path == PerLayer ==> (r == Unsuccessful <==> statuses[Layers - 1] == -1)
    ensures path == BySchedule ==> (r == Unsuccessful <==> scheduleStatus == -1)
  {
    var i := 0;
    if path == PerLayer {
      var j := 0;
      while j < Layers
        invariant 0 <= j <= Layers
        invariant j > 0 ==> i == statuses[j - 1]
      {
        i := statuses[j];
        j := j + 1;
      }
    } else if path == BySchedule {
      i := scheduleStatus;
    } else {
      return InvalidTechnique;
    }
    r := if i == -1 then Unsuccessful else Decoded;
  }

  /** A failure in any layer but the last goes unnoticed by the source,
      while the intended check fails the read-in. */
  lemma EarlyFailureUnnoticed(statuses: seq<int>, scheduleStatus: int, j: nat)
    requires |statuses| == Layers && j < Layers - 1
    requires statuses[j] == -1 && statuses[Layers - 1] == 0
    ensures AsWritten(PerLayer, statuses, scheduleStatus) == Decoded
    ensures Checked(PerLayer, statuses, scheduleStatus) == Unsuccessful
  {
    assert statuses[j] in statuses;
  }

  /** The two rules differ exactly when some layer before the last fails
      and the last one does not. */
  lemma RulesDiffer(path: DecodePath, statuses: seq<int>, scheduleStatus: int)
    requires |statuses| == Layers
    ensures AsWritten(path, statuses, scheduleStatus) != Checked(path, statuses, scheduleStatus) <==>
      path == PerLayer && -1 in statuses[..Layers - 1] && statuses[Layers - 1] != -1
  {
    assert statuses == statuses[..Layers - 1] + [statuses[Layers - 1]];
  }

  /** The per-layer branch as evidently intended. */
  method DecodeStepChecked(path: DecodePath, statuses: seq<int>, scheduleStatus: int) returns (r: Outcome)
    requires |statuses| == Layers
    ensures r == Checked(path, statuses, scheduleStatus)
    ensures r == InvalidTechnique <==> path == NotValid
    ensures path == PerLayer ==> (r == Unsuccessful <==> -1 in statuses)
    ensures path == BySchedule ==> (r == Unsuccessful <==> scheduleStatus == -1)
  {
    var failed := false;
    if path == PerLayer {
      var j := 0;
      while j < Layers
        invariant 0 <= j <= Layers
        invariant failed <==> -1 in statuses[..j]
      {
        assert statuses[..j + 1] == statuses[..j] + [statuses[j]];
        failed := failed || statuses[j] == -1;
        j := j + 1;
      }
      assert statuses[..Layers] == statuses;
    } else if path == BySchedule {
      failed := scheduleStatus == -1;
    } else {
      return InvalidTechnique;
    }
    r := if failed then Unsuccessful else Decoded;
  }

  // ---------------------------------------------------------------------
  // Writing the decoded file

  function Min(a: int, b: int): int {
    if a < b then a else b
  }

  /** The flat buffer of every layer. */
  function Rows(g: seq<Layer>): (r: seq<seq<Byte>>)
    ensures |r| == |g|
  {
    seq(|g|, i requires 0 <= i < |g| => Flatten(g[i]))
  }

  lemma RowsWidth(g: seq<Layer>, k: nat, bs: nat)
    requires Shaped(g, k, bs)
    ensures forall i :: 0 <= i < |g| ==> |Rows(g)[i]| == k * bs
  {
    forall i | 0 <= i < |g|
      ensures |Rows(g)[i]| == k * bs
    {
      FlattenLength(g[i], k, bs);
    }
  }

  predicate Width(rows: seq<seq<Byte>>, w: nat) {
    forall i :: 0 <= i < |rows| ==> |rows[i]| == w
  }

  /** What the output loop writes of one row of `w` bytes when `total`
      bytes are already out: the whole row while it fits under `origsize`;
      otherwise up to `tail` of its first bytes, and only as many as keep
      the count at or below `origsize`. */
  function RowOut(row: seq<Byte>, w: nat, tail: nat, total: int, origsize: int): (r: seq<Byte>)
    requires |row| == w
    ensures total + w <= origsize ==> r == row
    ensures r <= row && (total + w > origsize ==> |r| <= tail)
    ensures total + w > origsize && total < origsize ==> total + |r| == Min(total + tail, origsize)
    ensures total >= origsize && w > 0 ==> r == []
  {
    if total + w <= origsize then row
    else row[..if total >= origsize then 0 else Min(tail, origsize - total)]
  }

  /** The bytes the output loop appends for a whole read-in, starting with
      `total` bytes already written.  The count never passes `origsize`. */
  function Emitted(rows: seq<seq<Byte>>, w: nat, tail: nat, total: int, origsize: int): (out: seq<Byte>)
    requires Width(rows, w)
    ensures total <= origsize ==> total + |out| <= origsize
    decreases |rows|
  {
    if |rows| == 0 then []
    else
      var chunk := RowOut(rows[0], w, tail, total, origsize);
      chunk + Emitted(rows[1..], w, tail, total + |chunk|, origsize)
  }

  /** One row of Emitted, taken from the middle of the rows: `chunk` is
      what that row gives and `next` the count after it. */
  lemma EmittedStep(rows: seq<seq<Byte>>, w: nat, tail: nat, total: int, origsize: int, i: nat,
                    chunk: seq<Byte>, next: int)
    requires Width(rows, w) && i < |rows|
    requires chunk == RowOut(rows[i], w, tail, total, origsize) && next == total + |chunk|
    ensures Emitted(rows[i..], w, tail, total, origsize) == chunk + Emitted(rows[i + 1..], w, tail, next, origsize)
  {
    assert rows[i..][1..] == rows[i + 1..];
  }

  /** The byte-by-byte branch: a row's first bytes, one at a time, up to
      `tail` of them and only while the count is below `origsize`. */
  method EmitTail(row: seq<Byte>, w: nat, tail: nat, total0: int, origsize: int)
    returns (chunk: seq<Byte>, total: int)
    requires |row| == w && total0 + w > origsize
    ensures chunk == RowOut(row, w, tail, total0, origsize)
    ensures total == total0 + |chunk|
  {
    chunk := [];
    total := total0;
    var j := 0;
    while j < tail
      invariant 0 <= j <= tail && total == total0 + j && j <= w
      invariant total0 >= origsize ==> j == 0
      invariant total0 < origsize ==> j <= origsize - total0
      invariant chunk == row[..j]
    {
      if total < origsize {
        chunk := chunk + [row[j]];
        total := total + 1;
        j := j + 1;
      } else {
        break;
      }
    }
  }

  /** One row of the output loop: whole when it fits, byte by byte
      otherwise. */
  method EmitRow(row: seq<Byte>, w: nat, tail: nat, total: int, origsize: int) returns (chunk: seq<Byte>)
    requires |row| == w
    ensures chunk == RowOut(row, w, tail, total, origsize)
  {
    if total + w <= origsize {
      chunk := row;
    } else {
      var after;
      chunk, after := EmitTail(row, w, tail, total, origsize);
    }
  }

  /** The output loop has written `out` of the first i rows and `total`
      counts it. */
  predicate EmitProgress(rows: seq<seq<Byte>>, w: nat, tail: nat, total0: int, origsize: int,
                         i: nat, out: seq<Byte>, total: int)
    requires Width(rows, w) && i <= |rows|
  {
    total == total0 + |out| &&
    Emitted(rows, w, tail, total0, origsize) == out + Emitted(rows[i..], w, tail, total, origsize)
  }

  lemma Regroup(all: seq<Byte>, out: seq<Byte>, later: seq<Byte>, chunk: seq<Byte>, rest: seq<Byte>)
    requires all == out + later && later == chunk + rest
    ensures all == (out + chunk) + rest
  {
  }

  lemma EmitProgressStep(rows: seq<seq<Byte>>, w: nat, tail: nat, total0: int, origsize: int,
                         i: nat, out: seq<Byte>, total: int, chunk: seq<Byte>)
    requires Width(rows, w) && i < |rows|
    requires EmitProgress(rows, w, tail, total0, origsize, i, out, total)
    requires chunk == RowOut(rows[i], w, tail, total, origsize)
    ensures EmitProgress(rows, w, tail, total0, origsize, i + 1, out + chunk, total + |chunk|)
  {
    EmittedShift(rows, w, tail, total, origsize, i, Emitted(rows, w, tail, total0, origsize), out, chunk,
                 total + |chunk|);
  }

  /** The bytes still to come lose their first row to what is written. */
  lemma EmittedShift(rows: seq<seq<Byte>>, w: nat, tail: nat, total: int, origsize: int,
                     i: nat, all: seq<Byte>, out: seq<Byte>, chunk: seq<Byte>, next: int)
    requires Width(rows, w) && i < |rows|
    requires all == out + Emitted(rows[i..], w, tail, total, origsize)
    requires chunk == RowOut(rows[i], w, tail, total, origsize) && next == total + |chunk|
    ensures all == (out + chunk) + Emitted(rows[i + 1..], w, tail, next, origsize)
  {
    EmittedStep(rows, w, tail, total, origsize, i, chunk, next);
    Regroup(all, out, Emitted(rows[i..], w, tail, total, origsize), chunk,
            Emitted(rows[i + 1..], w, tail, next, origsize));
  }

  /** The output loop of one read-in (clay-decoder.c:642-659); the source
      passes tail = 10 * blocksize.  `out` is what it appends to the decoded
      file. */
  method Emit(rows: seq<seq<Byte>>, w: nat, tail: nat, total0: int, origsize: int)
    returns (out: seq<Byte>, total: int)
    requires Width(rows, w)
    ensures out == Emitted(rows, w, tail, total0, origsize)
    ensures total == total0 + |out|
  {
    out := [];
    total := total0;
    var i := 0;
    while i < |rows|
      invariant 0 <= i <= |rows|
      invariant EmitProgress(rows, w, tail, total0, origsize, i, out, total)
    {
      var chunk := EmitRow(rows[i], w, tail, total, origsize);
      EmitProgressStep(rows, w, tail, total0, origsize, i, out, total, chunk);
      out := out + chunk;
      total := total + |chunk|;
      i := i + 1;
    }
    assert rows[|rows|..] == [];
  }

  /** With tail >= w the output is the concatenation of the rows cut at
      origsize: nothing is skipped and nothing is repeated. */
  lemma {:induction false} EmittedPrefix(rows: seq<seq<Byte>>, w: nat, tail: nat, total: int, origsize: int)
    requires Width(rows, w) && tail >= w && total <= origsize
    ensures |Flatten(rows)| == |rows| * w
    ensures Emitted(rows, w, tail, total, origsize) == Flatten(rows)[..Min(|rows| * w, origsize - total)]
    decreases |rows|
  {
    FlattenLength(rows, |rows|, w);
    if |rows| > 0 {
      var rest := rows[1..];
      EmittedPrefix(rest, w, tail, if total + w <= origsize then total + w else origsize, origsize);
      assert |rows| * w == w + |rest| * w;
      if total + w > origsize {
        EmittedAtEnd(rest, w, tail, origsize);
      }
    }
  }

  /** Nothing more is written once origsize bytes are out. */
  lemma {:induction false} EmittedAtEnd(rows: seq<seq<Byte>>, w: nat, tail: nat, origsize: int)
    requires Width(rows, w)
    ensures Emitted(rows, w, tail, origsize, origsize) == []
    decreases |rows|
  {
    if |rows| > 0 {
      EmittedAtEnd(rows[1..], w, tail, origsize);
    }
  }

  /** The source's tail of 10 * blocksize is exact for k <= 10: rows of
      k * blocksize bytes are written as their concatenation cut at
      origsize. */
  lemma TailExactUpToTen(rows: seq<seq<Byte>>, k: nat, bs: nat, total: int, origsize: int)
    requires k <= 10 && Width(rows, k * bs) && total <= origsize
    ensures |Flatten(rows)| == |rows| * (k * bs)
    ensures Emitted(rows, k * bs, 10 * bs, total, origsize) ==
              Flatten(rows)[..Min(|rows| * (k * bs), origsize - total)]
  {
    assert k * bs <= 10 * bs by {
      MulLeft(k, 10, bs);
    }
    EmittedPrefix(rows, k * bs, 10 * bs, total, origsize);
  }

  lemma MulLeft(a: nat, b: nat, c: nat)
    requires a <= b
    ensures a * c <= b * c
  {
  }

  /** As written the byte-by-byte branch stops after 10 * blocksize bytes
      even when a layer holds k * blocksize > 10 * blocksize.  With
      10 * bs < origsize < k * bs the first layer gives only its first
      10 * bs bytes, and the next byte written is the first byte of the
      second layer where the file holds byte 10 * bs of the first. */
  lemma {:induction false} TailSkipsBytes(rows: seq<seq<Byte>>, k: nat, bs: nat, origsize: int)
    requires k > 10 && bs > 0 && |rows| >= 2 && Width(rows, k * bs)
    requires 10 * bs < origsize < k * bs
    ensures |Emitted(rows, k * bs, 10 * bs, 0, origsize)| > 10 * bs
    ensures Emitted(rows, k * bs, 10 * bs, 0, origsize)[10 * bs] == rows[1][0]
    ensures |Flatten(rows)| > 10 * bs && Flatten(rows)[10 * bs] == rows[0][10 * bs]
  {
    var w, tail := k * bs, 10 * bs;
    var first := RowOut(rows[0], w, tail, 0, origsize);
    assert first == rows[0][..tail];
    var second := RowOut(rows[1], w, tail, tail, origsize);
    assert |second| >= 1 && second[0] == rows[1][0];
    var rest := rows[1..];
    assert rest[1..] == rows[2..];
    assert Emitted(rows, w, tail, 0, origsize) == first + (second + Emitted(rows[2..], w, tail, tail + |second|, origsize));
    assert rows[0] + Flatten(rows[1..]) == Flatten(rows);
  }
}
