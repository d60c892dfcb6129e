/** File names.  Both programs take the input path, keep the part after its
    last '/', and cut that at its first '.' into a stem and an extension
    (mul-encoder.c:457-478, clay-decoder.c:159-174).  Fragment i of the data
    (1 <= i <= k) is <cwd>/Coding/<stem>_k<i><extension>, coding fragment i
    is the same with _m, and i is printed zero-padded to as many digits as k
    has (clay-decoder.c:272-274, 314, 354).  The decoded output goes to
    <cwd>/Coding/<stem>_decoded<extension> (clay-decoder.c:635). */
module Naming {

  // ---------------------------------------------------------------------
  // Base name, stem and extension

  /** The part of a path after its last '/', or the whole path when it has
      none: the longest suffix free of '/'. */
  function Basename(path: string): (r: string)
    ensures '/' !in r
    ensures |r| <= |path| && path[|path| - |r|..] == r
    ensures |r| < |path| ==> path[|path| - |r| - 1] == '/'
  {
    if |path| == 0 || path[|path| - 1] == '/' then []
    else
      var r := Basename(path[..|path| - 1]) + [path[|path| - 1]];
      assert path[..|path| - 1][|path| - |r|..] == path[|path| - |r|..|path| - 1];
      r
  }

  /** The three facts Basename ensures pin its result down: any suffix of
      the path that holds no '/' and is the whole path or follows a '/' is
      the base name. */
  lemma {:induction false} BasenameUnique(path: string, r: string)
    requires '/' !in r
    requires |r| <= |path| && path[|path| - |r|..] == r
    requires |r| < |path| ==> path[|path| - |r| - 1] == '/'
    ensures r == Basename(path)
    decreases |path|
  {
    if |path| > 0 && path[|path| - 1] != '/' {
      var front := path[..|path| - 1];
      var r' := r[..|r| - 1];
      assert front[|front| - |r'|..] == r';
      BasenameUnique(front, r');
      assert r == r' + [path[|path| - 1]];
    }
  }

  /** The name cut at its first '.': the stem before it and the extension
      from the '.' to the end, or the whole name and an empty extension. */
  function SplitExtension(name: string): (r: (string, string))
    ensures r.0 + r.1 == name
    ensures '.' !in r.0
    ensures r.1 == [] || r.1[0] == '.'
  {
    if |name| == 0 then ([], [])
    else if name[0] == '.' then ([], name)
    else
      var rest := SplitExtension(name[1..]);
      ([name[0]] + rest.0, rest.1)
  }

  /** Any split of the name into a stem free of '.' and an extension that is
      empty or starts with '.' is the one SplitExtension makes. */
  lemma {:induction false} SplitExtensionUnique(name: string, stem: string, ext: string)
    requires stem + ext == name && '.' !in stem && (ext == [] || ext[0] == '.')
    ensures SplitExtension(name) == (stem, ext)
    decreases |name|
  {
    if |name| > 0 && name[0] != '.' {
      assert |stem| > 0;
      assert stem[1..] + ext == name[1..] by {
        assert name == [stem[0]] + (stem[1..] + ext);
      }
      SplitExtensionUnique(name[1..], stem[1..], ext);
      assert [stem[0]] + stem[1..] == stem;
    } else if |name| > 0 {
      assert |stem| == 0;
      assert ext == name;
    }
  }

  /** The stem and extension both programs derive from the input path. */
  function StemAndExtension(path: string): (r: (string, string))
    ensures r.0 + r.1 == Basename(path)
    ensures '/' !in r.0 && '.' !in r.0
    ensures r.1 == [] || r.1[0] == '.'
  {
    var r := SplitExtension(Basename(path));
    assert forall j :: 0 <= j < |r.0| ==> r.0[j] == Basename(path)[j];
    r
  }

  // ---------------------------------------------------------------------
  // Decimal numbers, as %d and %0*d print them

  predicate IsDigit(c: char) {
    '0' <= c <= '9'
  }

  predicate AllDigits(s: string) {
    forall j :: 0 <= j < |s| ==> IsDigit(s[j])
  }

  function Digit(d: nat): (c: char)
    requires d < 10
    ensures IsDigit(c) && c as int - '0' as int == d
  {
    (d + '0' as int) as char
  }

  /** The number a string of decimal digits denotes. */
  function Value(s: string): nat
    requires AllDigits(s)
  {
    if |s| == 0 then 0 else Value(s[..|s| - 1]) * 10 + (s[|s| - 1] as int - '0' as int)
  }

  /** %d of a natural number: its digits, most significant first, without
      leading zeros. */
  function Decimal(n: nat): (r: string)
    ensures |r| >= 1 && AllDigits(r) && Value(r) == n
    ensures r[0] != '0' || n == 0
  {
    if n < 10 then [Digit(n)]
    else
      var r := Decimal(n / 10) + [Digit(n % 10)];
      assert r[..|r| - 1] == Decimal(n / 10);
      r
  }

  /** A number has no more digits than any larger one. */
  lemma {:induction false} DecimalLengthMonotone(i: nat, k: nat)
    requires i <= k
    ensures |Decimal(i)| <= |Decimal(k)|
    decreases k
  {
    if i >= 10 {
      DecimalLengthMonotone(i / 10, k / 10);
    }
  }

  function Zeros(z: nat): (r: string)
    ensures |r| == z && AllDigits(r) && Value(r) == 0
  {
    if z == 0 then [] else
      var r := Zeros(z - 1) + ['0'];
      assert r[..z - 1] == Zeros(z - 1);
      r
  }

  /** Leading zeros do not change the value. */
  lemma {:induction false} LeadingZeros(z: nat, d: string)
    requires AllDigits(d)
    ensures AllDigits(Zeros(z) + d) && Value(Zeros(z) + d) == Value(d)
    decreases |d|
  {
    if |d| > 0 {
      var s := Zeros(z) + d;
      assert s[..|s| - 1] == Zeros(z) + d[..|d| - 1];
      LeadingZeros(z, d[..|d| - 1]);
    } else {
      assert Zeros(z) + d == Zeros(z);
    }
  }

  /** %0*d: the decimal digits of n, zero-padded on the left to `width`
      characters; a number with more digits than `width` is printed whole. */
  function Padded(n: nat, width: nat): (r: string)
    ensures |r| == if width > |Decimal(n)| then width else |Decimal(n)|
    ensures AllDigits(r) && Value(r) == n
  {
    var z := if width > |Decimal(n)| then width - |Decimal(n)| else 0;
    LeadingZeros(z, Decimal(n));
    Zeros(z) + Decimal(n)
  }

  /** Fragment indices 1 .. k all print with exactly as many digits as k. */
  lemma PaddedWidth(i: nat, k: nat)
    requires i <= k
    ensures |Padded(i, |Decimal(k)|)| == |Decimal(k)|
  {
    DecimalLengthMonotone(i, k);
  }

  // ---------------------------------------------------------------------
  // Fragment names

  datatype Kind = DataFragment | CodingFragment

  /** The letter that marks the kind: k for data, m for coding. */
  function KindLetter(kind: Kind): char {
    if kind == DataFragment then 'k' else 'm'
  }

  /** The directory every file of the code lives in. */
  function CodingDir(cwd: string): string {
    cwd + "/Coding/"
  }

  /** <cwd>/Coding/<stem>_k<i><ext> or _m<i>, with i printed to the width of
      k's digits. */
  function FragmentName(cwd: string, stem: string, ext: string, kind: Kind, i: nat, k: nat): string {
    CodingDir(cwd) + stem + ['_', KindLetter(kind)] + Padded(i, |Decimal(k)|) + ext
  }

  /** <cwd>/Coding/<stem>_decoded<ext>. */
  function DecodedName(cwd: string, stem: string, ext: string): string {
    CodingDir(cwd) + stem + "_decoded" + ext
  }

  /** Two fragment names of one file are equal only when they name the same
      fragment: kind and index are recovered from the name. */
  lemma FragmentNamesDistinct(cwd: string, stem: string, ext: string, k: nat,
                              kind1: Kind, i1: nat, kind2: Kind, i2: nat)
    requires FragmentName(cwd, stem, ext, kind1, i1, k) == FragmentName(cwd, stem, ext, kind2, i2, k)
    ensures kind1 == kind2 && i1 == i2
  {
    var head := CodingDir(cwd) + stem;
    var x1, x2 := Padded(i1, |Decimal(k)|), Padded(i2, |Decimal(k)|);
    var n1 := head + ['_', KindLetter(kind1)] + x1 + ext;
    var n2 := head + ['_', KindLetter(kind2)] + x2 + ext;
    assert n1[|head| + 1] == KindLetter(kind1) && n2[|head| + 1] == KindLetter(kind2);
    assert |x1| == |x2|;
    assert x1 == n1[|head| + 2..|head| + 2 + |x1|];
    assert x2 == n2[|head| + 2..|head| + 2 + |x2|];
  }

  /** The decoded output never overwrites a fragment. */
  lemma DecodedIsNoFragment(cwd: string, stem: string, ext: string, kind: Kind, i: nat, k: nat)
    ensures DecodedName(cwd, stem, ext) != FragmentName(cwd, stem, ext, kind, i, k)
  {
    var head := CodingDir(cwd) + stem;
    assert DecodedName(cwd, stem, ext)[|head| + 1] == 'd';
    assert FragmentName(cwd, stem, ext, kind, i, k)[|head| + 1] == KindLetter(kind);
  }
}
