# jerasure-mulcode: the layer-coupling encoder and decoder, in Dafny

This project models the core of two programs built on Jerasure: the encoder
`mul-encoder.c` and the decoder `clay-decoder.c`. Both cut a stripe of the file
into layers. A layer holds one block per column: k data columns in `fdata` and
m coding columns in `fcoding`. Both programs then run layer-coupling passes
over that grid.

The model covers:

- **Encoder parameter checks.** The argument checks, the checks of each coding
  technique, and `is_prime` with its table of 55 primes.
- **Encoder sizes.** Rounding of the requested buffer size, padding of the file
  size to `newsize`, and the block size and read-in count. The read buffer is
  padded with the character `'0'` and then split into the layer grid `fdata`.
- **Forward coupling.** The `ffdata`/`ccoding` backups and the encoder's four
  coupling passes, with M = 8 layers. Pairs (a, b) become (a + b, b + e·a).
- **Decoder input.** The fragment names, the `erased` flags, the
  `-1`-terminated `erasures` list, and how fragment files are copied into the
  layer grids.
- **Inverse coupling.** The decoder's seven passes, with M = 128 layers. They
  are gated by the `erased` flags and solve pairs (a + 2b, 2a + b) using ×2 and
  ×3⁻¹.
- **Decoder output.** The choice of decoding path, the decode status check, and
  the output loop that truncates the decoded layers to the original file size.

Arithmetic is in GF(2^8) with the polynomial 0x11d. It is defined concretely in
`gf.dfy`, and the field facts the passes need are proved there. No field law is
assumed.

Code that changes state stays imperative in the model. The padding fill, the
split and backup copies, the coupling passes and the erasure bookkeeping are
methods over arrays. The rounding loops (Sizing.RoundBuffersize,
Sizing.NewSize), the decode status loop (DecoderOutput.DecodeStep) and the
output loop (DecoderOutput.Emit) are methods with `while` loops over integers
and sequences. Each method is proved against a specification function, and the
properties of the programs are lemmas about those functions.

Modules: `Gf` (gf.dfy), `Grid` (grid.dfy), `Optional` (option.dfy), `Primes`,
`Params`, `Sizing`, `Naming`, `EncoderInput`, `ForwardCoupling`,
`ForwardTransform`, `DecoderInput`, `InverseCoupling`, `InverseTransform` and
`DecoderOutput`.

The programs disagree with each other in places, and the model follows each
program's own code.

- The encoder couples with e ∈ {20, 18, 17, 16, 15} over 8 layers.
- The decoder uncouples with 2 and 3⁻¹ over 128 layers.

So each side's algebra is proved on its own, and no encode/decode round trip
is claimed.

The encoder also accepts the technique name `no_coding`
(mul-encoder.c:275-277), so `Params` accepts it as well.

## Model

| member | source | states |
|---|---|---|
| Gf.XorIndex | mul-encoder.c:745 | byte x of `galois_region_xor`'s result is dst[x] XOR src[x] |
| Gf.ScaleIndex | mul-encoder.c:749 | byte x of `galois_w08_region_multiply`'s result is the field product c·src[x] |
| Gf.XorCancel | clay-decoder.c:490-491 | adding the same block twice gives the other block back |
| Gf.MulThree | clay-decoder.c:483 | 3·x = x + 2·x in GF(2^8), the identity the decoder's comment relies on |
| Gf.InverseOfThree | clay-decoder.c:485 | `galois_single_divide(1, 3, 8)` is 244 |
| Gf.SolveByte | clay-decoder.c:484-487 | from lower = a + 2b and upper = 2a + b, two rounds of "add upper, divide by 3" leave a, for every pair of bytes |
| Gf.UncoupleByte | mul-encoder.c:674 | for each constant e the encoder uses (20, 18, 17, 16, 15), (1 + e)⁻¹ times the sum of a + b and b + e·a is a, so the coupled pair determines a |
| Grid.FlattenIndex | mul-encoder.c:600 | byte x of column c is byte c·blocksize + x of the layer's flat buffer |
| Grid.CopyGrid | mul-encoder.c:662-671 | the backup becomes an exact copy of the grid, layer by layer |
| Grid.PartnerInRange | clay-decoder.c:498-501 | a lower layer i (i mod 2s < s) of a grid whose height is a multiple of 2s has its partner i + s inside the grid |
| Grid.UpperPartner | clay-decoder.c:506-507 | an upper layer i (i mod 2s ≥ s) has the partner i − s, and that partner is a lower layer |
| Primes.TableEntryPrime | mul-encoder.c:1059-1061 | every entry of `prime55` is a prime between 2 and 257 |
| Primes.TableComplete | mul-encoder.c:1059-1061 | every prime up to 257 is an entry of `prime55` |
| Primes.ScanTable | mul-encoder.c:1063-1069 | the scan loop returns the first entry's verdict: Some(w == entry) for the first entry dividing w, None when no entry divides w |
| Primes.IsPrime | mul-encoder.c:1058-1070 | `is_prime(w)` is the scan of `prime55`; None stands for the failing `assert(0)` |
| Primes.ScanAborts | mul-encoder.c:1063-1069 | the scan reaches `assert(0)` exactly when no entry from i on divides w |
| Primes.IsPrimeTrue | mul-encoder.c:1063-1068 | `is_prime` answers 1 exactly for the entries of its table |
| Primes.IsPrimeCorrect | mul-encoder.c:1058-1070 | for 2 ≤ w ≤ 257, `is_prime` never aborts and answers whether w is prime |
| Primes.ZeroIsNotPrime | mul-encoder.c:1064-1066 | `is_prime(0)` answers 0 |
| Primes.OneAborts | mul-encoder.c:1069 | `is_prime(1)` reaches `assert(0)` |
| Primes.LargePrimeAborts | mul-encoder.c:1069 | `is_prime` of a prime above 257 reaches `assert(0)` |
| Params.TechniqueNames | mul-encoder.c:275-370 | a name selects technique t exactly when it is t's name; names and techniques correspond one to one |
| Params.CheckNumbers | mul-encoder.c:205-235 | the numeric checks pass exactly when k > 0, m ≥ 0, w > 0, packetsize ≥ 0 and buffersize ≥ 0 |
| Params.EvenNotPrime | mul-encoder.c:315 | an even w above 2 is not prime, so the test `!(w%2)` excludes no prime |
| Params.TechniqueAccepts | mul-encoder.c:275-370 | a technique's checks never abort, for liberation and blaum_roth when w ≤ 257 and for the others for every w. They accept exactly when: no_coding always; reed_sol_van has w ∈ {8,16,32}; reed_sol_r6_op also has m = 2; cauchy_* has packetsize ≠ 0; liberation has k ≤ w, an odd prime w > 2 and a nonzero packetsize that is a multiple of 8; blaum_roth has the same with w + 1 prime; liber8tion has packetsize ≠ 0, w = 8, m = 2 and k ≤ 8 |
| Params.ValidateAccepts | mul-encoder.c:205-370 | the whole validation never aborts (for the names liberation and blaum_roth when w ≤ 257), and it accepts technique t exactly when the numbers pass, the name is t's, and t's conditions hold; every other name is rejected |
| Params.LiberationAbortsBeyondTable | mul-encoder.c:315 | liberation with a prime w above 257 (and k ≤ w) makes `is_prime` abort |
| Params.BlaumRothAbortsBeyondTable | mul-encoder.c:334 | blaum_roth with w + 1 a prime above 257 (and k ≤ w) makes `is_prime` abort |
| Sizing.NoMultipleBetween | mul-encoder.c:242-247 | no multiple of d lies between x and RoundUp(x, d), or between RoundDown(x, d) and x |
| Sizing.NearestIsNearest | mul-encoder.c:257-270 | no multiple of d is nearer to x than Nearest(x, d), and on a tie the upper one is taken |
| Sizing.RoundBuffersize | mul-encoder.c:238-271 | a buffer size of 0 or one that is already a multiple of the unit U is kept. Otherwise, with a packet size it becomes the next multiple of U above, and without one it becomes the nearest multiple, the upper one on a tie |
| Sizing.RoundedBufferIsUnit | mul-encoder.c:238-271 | the rounded buffer size is 0 or a multiple of U; it is 0 only when 0 was asked for, or when there is no packet size and 2·buffersize < U |
| Sizing.RaiseToMultiple | mul-encoder.c:412-413 | the `newsize++` loop ends at the least multiple of d that is at least x |
| Sizing.NewSize | mul-encoder.c:407-427 | newsize is the least multiple of U at or above the file size, then raised to the least multiple of the buffer size when there is one |
| Sizing.PaddedSize | mul-encoder.c:407-427 | with a rounded buffer size, newsize is the least multiple of the buffer size at or above the file size, and a whole number of stripes of 8·k blocks |
| Sizing.UnitOfStripes | mul-encoder.c:432-433 | U is a multiple of M·k, so `newsize/M/k` divides exactly |
| Sizing.EncoderPlan | mul-encoder.c:432-454 | there is at least one read-in unless newsize < buffersize, and when the buffer size is 0 or divides newsize, the read-ins cover newsize exactly |
| Sizing.WholeFilePlanFits | mul-encoder.c:450-454 | without a smaller buffer there is one read-in, and its M·k blocks span exactly newsize bytes |
| Sizing.EncoderPlanOverruns | mul-encoder.c:448 | as written, with a buffer smaller than the file, the M layers of k blocks span M times the buffer (see Findings) |
| Sizing.EncoderPlanOverrunExample | mul-encoder.c:440-449 | k = 10, w = 8, a 1000-byte file and a 640-byte buffer: the blocksize is 64 and the split spans 5120 bytes |
| Sizing.FixedPlan | mul-encoder.c:440-454 | the corrected plan has EncoderPlan's read-in count, buffer length and read length; in the buffered case its block size is EncoderPlan's divided by M, and otherwise it is EncoderPlan |
| Sizing.FixedPlanFits | mul-encoder.c:440-454 | with blocksize = buffersize/k/M, the layers span exactly the buffer |
| Naming.Basename | mul-encoder.c:459-466 | the base name has no '/', is a suffix of the path, and is preceded by '/' when shorter than the path |
| Naming.BasenameUnique | mul-encoder.c:459-466 | any suffix with those three properties is the base name |
| Naming.SplitExtension | mul-encoder.c:467-473 | stem + extension is the name, the stem has no '.', and the extension is empty or starts with '.' |
| Naming.SplitExtensionUnique | mul-encoder.c:467-473 | any split with those properties is the one made at the first '.' |
| Naming.StemAndExtension | clay-decoder.c:159-174 | the stem and extension make up the base name, and the stem holds neither '/' nor '.' |
| Naming.Decimal | mul-encoder.c:477-478 | `%d` of n is a string of digits denoting n, without leading zeros |
| Naming.Padded | clay-decoder.c:314 | `%0*d` of n is max(width, digits of n) digits long and denotes n |
| Naming.PaddedWidth | clay-decoder.c:272-274 | every index 1..k prints with exactly as many digits as k |
| Naming.FragmentNamesDistinct | clay-decoder.c:314-354 | two fragment names of one file are equal only for the same kind and index |
| Naming.DecodedIsNoFragment | clay-decoder.c:635 | the decoded file's name differs from every fragment name |
| EncoderInput.Pads | mul-encoder.c:571-573 | n padding bytes, each the character '0' |
| EncoderInput.ReadInContents | mul-encoder.c:566-579 | The bytes read come first. On a short final read, bytes from the count read up to buffersize − 1 are '0'. When total = size the whole buffer is '0'. Bytes past buffersize are untouched |
| EncoderInput.ReadInTotalBounded | mul-encoder.c:566-568 | the running total never decreases and never passes the file size |
| EncoderInput.Store | mul-encoder.c:567 | the read writes its bytes to the front of the buffer and leaves the rest |
| EncoderInput.Fill | mul-encoder.c:571-573 | bytes from..to − 1 become '0' and every other byte keeps its value |
| EncoderInput.ReadIn | mul-encoder.c:566-579 | the buffer and the total after one read-in are ReadInBlock and ReadInTotal of the old ones |
| EncoderInput.FlattenOfColumns | mul-encoder.c:655-656 | cutting a flat buffer into blocks and flattening them again gives the buffer back |
| EncoderInput.ColumnsOfFlatten | mul-encoder.c:655-656 | flattening a layer and cutting it again gives the layer back |
| EncoderInput.SplitLayers | mul-encoder.c:596-600 | after the split loop, `fdata` is the layer grid cut from the buffer |
| EncoderInput.SplitLayer | mul-encoder.c:655-656 | layer j, flattened, is bytes j·k·blocksize .. (j+1)·k·blocksize − 1 of the buffer |
| EncoderInput.SplitCell | mul-encoder.c:599-600 | block i of layer j is the blocksize bytes starting at (j·k + i)·blocksize |
| ForwardCoupling.CoupledGrid | mul-encoder.c:757-771 | after a pass every layer still has cols blocks of blocksize bytes |
| ForwardCoupling.XorBytes | mul-encoder.c:760-762 | the byte loop around `galois_region_xor(…, 1)` computes the whole block XOR |
| ForwardCoupling.LowerLayerPass | mul-encoder.c:758-763 | the column loop on a lower layer gives LowerLayer: each odd window column absorbs the partner's even column |
| ForwardCoupling.UpperLayerPass | mul-encoder.c:764-769 | the column loop on an upper layer scales the backup's odd cells by e[j/2] and adds them to the even cells |
| ForwardCoupling.CouplePass | mul-encoder.c:757-771 | one pass of stride s over a column window turns the grid and backup into CoupledGrid and CoupledBackup of their old contents |
| ForwardCoupling.PassFrame | mul-encoder.c:757-771 | a pass writes only odd window cells of lower layers and even window cells of upper layers |
| ForwardCoupling.BackupFrame | mul-encoder.c:765 | a pass changes only the odd window cells of lower layers' backups |
| ForwardCoupling.PassPair | mul-encoder.c:757-771 | Let a be the lower odd cell and b the upper even cell. After the pass the lower cell is a + b, the upper cell is b + e[c/2]·a (with a taken from the backup), and the backup cell is e[c/2]·a |
| ForwardTransform.Transform | mul-encoder.c:662-805 | the backups and the four passes leave `fdata`/`ffdata` equal to DataTransform of the input, and `fcoding`/`ccoding` equal to CodingTransform |
| ForwardTransform.SourceLayerTests | mul-encoder.c:741-788 | each of the encoder's literal layer tests (i%2, i/2 ∈ {0,2}, i/4 == 0 and their opposites) is the lower/upper split for its stride |
| ForwardTransform.DataUntouched | mul-encoder.c:741-788 | data columns from 10 on keep their value in `fdata` and `ffdata`; in columns 0-9, `fdata` keeps the even cells of lower layers and the odd cells of upper layers, and `ffdata` keeps every cell but the odd cells of lower layers |
| ForwardTransform.DataPair | mul-encoder.c:741-788 | after all data passes, each odd column c < 10 of a lower layer i holds a + b; its partner i + s holds b + e[c/2]·a; the backup holds e[c/2]·a |
| ForwardTransform.PairOfFirstPass | mul-encoder.c:741-755 | the stride-1 case of DataPair, on columns 0-1 |
| ForwardTransform.PairOfSecondPass | mul-encoder.c:757-771 | the stride-2 case of DataPair, on columns 2-7 |
| ForwardTransform.PairOfThirdPass | mul-encoder.c:774-788 | the stride-4 case of DataPair, on columns 8-9 |
| ForwardTransform.CodingUntouched | mul-encoder.c:791-805 | coding columns from 4 on keep their value in `fcoding` and `ccoding`; in columns 0-3, `fcoding` keeps the even cells of lower layers and the odd cells of upper layers, and `ccoding` keeps every cell but the odd cells of lower layers |
| ForwardTransform.CodingPair | mul-encoder.c:791-805 | the coupled coding pair of stride 4 on coding columns 0-3, as in DataPair |
| ForwardTransform.UncoupleBlock | mul-encoder.c:741-755 | Uncouple(e, a + b, b + e·a) recovers (a, b) |
| ForwardTransform.DataInvertible | mul-encoder.c:741-788 | every coupled data pair the transform produces determines the two cells it was made from |
| ForwardTransform.CodingInvertible | mul-encoder.c:791-805 | every coupled coding pair determines the two cells it was made from |
| DecoderInput.MissingListSpec | clay-decoder.c:313-361 | `erasures` holds exactly the indices of the missing fragments, data 0..k−1 then coding k..k+m−1, strictly ascending |
| DecoderInput.MissingListStep | clay-decoder.c:316-319 | visiting one more fragment appends its index exactly when it is missing |
| DecoderInput.Marked | clay-decoder.c:316-318 | after visiting fragments lo..hi−1, a flag is set exactly when it was set before or its fragment in that range is missing |
| DecoderInput.PlacedCell | clay-decoder.c:344-348 | block j of an opened fragment lands in layer j, in the fragment's column; a missing fragment's cells keep their old contents |
| DecoderInput.PlaceColumn | clay-decoder.c:344-348 | the copy loop of one opened fragment gives Place of the old grid |
| DecoderInput.NoteMissing | clay-decoder.c:316-319 | a missing fragment sets its flag, appends its index to `erasures`, and increments `numerased` |
| DecoderInput.ReadGroup | clay-decoder.c:313-351 | after one of the two fragment loops: the grid is Placed, the flags are Marked, and `erasures[..numerased]` is the missing list so far |
| DecoderInput.ReadIn | clay-decoder.c:311-398 | After one read-in, data fragments are in `fdata` and coding fragments in `fcoding`. Missing fragments' flags are added to the old ones and none is cleared. `erasures` is the missing list followed by −1 (with k + m + 1 slots; see Findings). The buffered branch's `coding[j]` are taken to hold blocksize bytes each (see Left out) |
| DecoderInput.AllMissing | clay-decoder.c:223 | when all n fragments are missing, n indices are listed, so nothing bounds `numerased` by m and the −1 goes to index k + m |
| InverseCoupling.LowerSide | clay-decoder.c:500-505 | the lower side of a pass at one layer gives LowerSolved: add the upper cell, divide by 3, twice, when its gate is open |
| InverseCoupling.UpperSide | clay-decoder.c:506-509 | the upper side writes 2·(restored lower) to the backup and adds it to the upper cell, when its gate is open |
| InverseCoupling.InversePass | clay-decoder.c:497-511 | the ascending-i loop of one pass turns grid and backup into SolvedGrid and SolvedBackup; upper layers see their partner's already-solved cell |
| InverseCoupling.PartnerInvolution | clay-decoder.c:498-508 | in a grid whose height is a multiple of 2s, the partner is in range, differs from i, has the other kind, and the partner of the partner is i |
| InverseCoupling.SourceLowerTest | clay-decoder.c:498-500 | the test i − (i/2s)·2s < s is exactly "i is a lower layer" |
| InverseCoupling.PassFrame | clay-decoder.c:497-511 | a pass changes no grid or backup cell it does not write |
| InverseCoupling.PassSolvesPair | clay-decoder.c:500-508 | with both gates open, a lower cell a + 2b and an upper cell 2a + b become a and b, and the backup cell becomes 2a |
| InverseCoupling.SolveBlock | clay-decoder.c:501-504 | the four region operations of the lower side turn a + 2b (with upper 2a + b) into a |
| InverseCoupling.UpperRestored | clay-decoder.c:507-508 | adding 2a to 2a + b leaves b |
| InverseTransform.DataPass | clay-decoder.c:479-562 | data pass t works on columns 2t, 2t + 1 with stride 1, 2, 4, 8, 16 and fits 128 layers |
| InverseTransform.CodingPass | clay-decoder.c:564-598 | coding pass q works on coding columns 2q, 2q + 1 with stride 32 or 64 |
| InverseTransform.InverseTransform | clay-decoder.c:408-598 | the backups, five data passes and two coding passes leave `fdata`/`ffdata` equal to DataInverse and `fcoding`/`ccoding` equal to CodingInverse of the input |
| InverseTransform.SourceLayerTests | clay-decoder.c:483-549 | the decoder's layer tests (i%2 and i − (i/2s)·2s against s) are the lower/upper split of each stride |
| InverseTransform.GatesGuardWrites | clay-decoder.c:482-593 | no side of any pass writes a column whose fragment is erased |
| InverseTransform.FirstPassLowerIgnoresPartner | clay-decoder.c:482-489 | with column 0 erased and column 1 present, the stride-1 pass runs its lower side but not its upper side, because it tests only `erased[j]` |
| InverseTransform.CodingUpperReadsLeftNeighbour | clay-decoder.c:574 | the upper side of a coding pass tests `erased[k+j−1]`, the column to its left, not its partner, so it runs with its partner erased |
| InverseTransform.DataUntouched | clay-decoder.c:479-562 | data cells no pass writes keep their value in `fdata` and `ffdata` |
| InverseTransform.CodingUntouched | clay-decoder.c:564-598 | coding columns from 4 on, and every coding cell the open sides of the coding passes do not write, keep their value in `fcoding` and `ccoding` |
| InverseTransform.DataSolvesPair | clay-decoder.c:479-562 | with the pair's gates open, after all data passes the pair (a + 2b, 2a + b) of column pair t holds (a, b), and the backup holds 2a |
| InverseTransform.CodingSolvesPair | clay-decoder.c:564-598 | the same for coding column pair q, after both coding passes |
| DecoderOutput.PathOf | clay-decoder.c:603-623 | Reed-Solomon techniques decode layer by layer, no_coding is refused, and every other technique decodes by schedule |
| DecoderOutput.DecodeStep | clay-decoder.c:603-632 | as written (AsWritten): the technique is refused exactly for no_coding; per-layer decoding fails exactly when the last layer's status is −1 |
| DecoderOutput.EarlyFailureUnnoticed | clay-decoder.c:604-614 | with −1 in a layer before the last and 0 in the last, the rule as written (AsWritten, which DecodeStep computes) reports Decoded while the intended rule (Checked) reports Unsuccessful |
| DecoderOutput.RulesDiffer | clay-decoder.c:604-629 | the two rules differ exactly on the per-layer path when some layer before the last returns −1 and the last does not |
| DecoderOutput.DecodeStepChecked | clay-decoder.c:603-632 | corrected (Checked): per-layer decoding fails exactly when some layer's status is −1 |
| DecoderOutput.RowOut | clay-decoder.c:643-658 | A row that fits is written whole. Otherwise a prefix of at most `tail` bytes is written, ending at origsize or at `tail` bytes. Nothing is written once total reaches origsize |
| DecoderOutput.Emitted | clay-decoder.c:642-659 | the total never passes origsize |
| DecoderOutput.EmitTail | clay-decoder.c:648-657 | the byte-by-byte loop writes RowOut's bytes and advances total by as many |
| DecoderOutput.EmitRow | clay-decoder.c:643-658 | one row of the output loop writes RowOut |
| DecoderOutput.Emit | clay-decoder.c:642-659 | the output loop writes Emitted and advances total by its length |
| DecoderOutput.EmittedPrefix | clay-decoder.c:642-659 | corrected (tail at least the row width k·blocksize): the output is `fdata[0] ++ … ++ fdata[M−1]` cut at origsize − total |
| DecoderOutput.EmittedAtEnd | clay-decoder.c:649-655 | once total equals origsize, nothing more is written, whatever the tail length |
| DecoderOutput.TailExactUpToTen | clay-decoder.c:642-659 | with the source's tail of 10·blocksize and k ≤ 10, the output is the rows' concatenation cut at origsize − total |
| DecoderOutput.TailSkipsBytes | clay-decoder.c:648 | as written, with k > 10 and 10·blocksize < origsize < k·blocksize, output byte 10·blocksize is layer 1's first byte instead of layer 0's byte 10·blocksize |

## Findings

| source | as written | input that shows it | evidently intended | confidence | as-written member | corrected member |
|---|---|---|---|---|---|---|
| mul-encoder.c:448 | `blocksize = buffersize/k` when the buffer is smaller than the file, but the split (596-600) reads M·k·blocksize = 8·buffersize bytes from a buffersize-byte buffer | k = 10, w = 8, no packet size, a 1000-byte file, buffersize 640: blocksize 64, layers span 5120 bytes | `blocksize = buffersize/k/M`, as the decoder computes it (clay-decoder.c:264) | not executed | Sizing.EncoderPlanOverruns, Sizing.EncoderPlanOverrunExample | Sizing.FixedPlan, Sizing.FixedPlanFits |
| clay-decoder.c:611 | the decode status `i` is overwritten for each of the M layers, so only the last layer's −1 reaches the check at 629 | statuses −1 for layer 0 and 0 for layer 127. Line 611 passes the same k, m, w, matrix and erasures for every layer; only the block pointers change. So this needs a base decoder whose status depends on the block contents | fail when any layer fails | not executed | DecoderOutput.DecodeStep, DecoderOutput.EarlyFailureUnnoticed | DecoderOutput.DecodeStepChecked |
| clay-decoder.c:648 | a layer that does not fit is written byte by byte from its first 10·blocksize bytes, not k·blocksize | k = 11, blocksize = 2, origsize = 21: byte 20 of layer 0 is skipped and output byte 20 is layer 1's byte 0 | k·blocksize, so the output is the layers' bytes cut at origsize | not executed | DecoderOutput.TailSkipsBytes | DecoderOutput.EmittedPrefix |
| clay-decoder.c:223 | `erasures` has k + m slots, but line 398 writes −1 at index `numerased`, which is k + m when every fragment is missing | all k + m fragment files missing | room for the −1 terminator (k + m + 1 slots) | not executed | DecoderInput.AllMissing | DecoderInput.ReadIn |

## Left out

- The field is GF(2^8) only. The transforms call `galois_w08_region_multiply`, which is w = 8; `galois_single_divide(1,3,w)` for other w is not modelled.
- File and directory I/O is not modelled: `fopen`, `fread`, `fwrite`, `fseek`, `stat`, `mkdir`, `getcwd` and the metadata file. The bytes a read returns (`got`, the fragment contents) and the current directory are parameters. Opening a fragment file is modelled as present or missing.
- The writing of the encoder's fragments (mul-encoder.c:992-1022) is not part of this model. It writes the last layer's raw blocks, not the transformed arrays, so no encode/decode round trip holds. Each side's algebra is proved on its own.
- The base codecs are not modelled: matrix and bitmatrix construction, `jerasure_matrix_encode/decode` and `jerasure_schedule_*`. `fcoding` enters the forward transform as an input. The decoder's per-layer statuses and its schedule status are inputs.
- The schedule-decode branch works on `data`/`coding` rather than on the transformed `fdata`. Only its status is modelled.
- WordBytes: `sizeof(long)` is fixed at 8, its LP64 value. The packet-size checks and Sizing.UnitOfStripes (which needs it to equal M) rely on that; other platforms are not modelled.
- Sizes are unbounded integers. The 32-bit `int` overflow of `newsize`, `buffersize` and `total` is not modelled.
- Three memory defects are kept out of the model. The `fcoding` copy (mul-encoder.c:647-648) reads m·blocksize bytes from the single block `coding[0]`. `cs1` (clay-decoder.c:159) has no room for the terminator. In the decoder's buffered branch, clay-decoder.c:260-262 allocates only `coding[0..m−1]`, each buffersize/M/m bytes, yet clay-decoder.c:373-374 reads blocksize bytes into `coding[j]` for every j < M. So `coding[m..M−1]` are never allocated, and when m > k the allocated ones are shorter than blocksize. DecoderInput.ReadIn models the copy into `fcoding` as if every `coding[j]`, j < M, held blocksize bytes.
- When the whole file is one read-in, the buffer holds newsize bytes but only size are read. Bytes size..newsize−1 are never written by the source, so their initial contents are a parameter (ReadInContents keeps them).
- The byte loops of the split (mul-encoder.c:655-656), of the fragment copy (clay-decoder.c:344-348) and of the backup copies (mul-encoder.c:662-671, clay-decoder.c:408-417) are modelled as block and layer copies (Grid.CopyGrid copies a layer per step). The decoder's region calls over blocksize bytes are modelled as whole-block operations.
- The transforms require k ≥ 10 and m ≥ 4. Both programs address data columns 0-9 and coding columns 0-3 without checking k or m. The encoder's rows are k·blocksize and m·blocksize bytes (mul-encoder.c:597-598), so there it writes outside the rows for smaller k or m. The decoder's rows are k·512000 and m·512000 bytes (clay-decoder.c:125, 238-255), so its passes usually stay inside them. Its data passes then gate on erased[k..9], which are coding fragments' flags, and they read past `erased` when k + m < 10. Its coding passes read erased[k+3], past `erased` when m < 4.
- The order independence of the encoder's passes is not stated as a lemma of its own. DataPair, DataUntouched, CodingPair and CodingUntouched give every cell after all passes in terms of the input alone.
- The read-in loop is not modelled as a loop. Each read-in is one call (EncoderInput.ReadIn, DecoderInput.ReadIn, DecoderOutput.Emit), with the old `total`, `erased` and buffer passed in. The decoder's `erased` flags are never cleared, and ReadIn keeps every old flag.
- The argument parsing is not modelled: `sscanf`, `argc` and the random-input path (`MOA_*`). CheckNumbers takes the parsed numbers.
- The decoder reads the technique as an integer from the metadata file. Here it is a Params.Technique.
- In the decoder's single-read-in branch, `blocksize` comes from `stat`. It is a parameter.
- Timing, the MB/sec figures (floating point), the `printf` dumps, the signal handler and the `Methods` table are not modelled.
- The decoder's unused `e`/`e1` tables (clay-decoder.c:402-406) are not modelled.
