/** The encoder's command-line checks (mul-encoder.c:205-235, 275-370): the
    numeric arguments, then the technique name with the conditions each
    technique puts on k, m, w and the packet size. */
module Params {
  import opened Optional
  import opened Primes

  /** sizeof(long) on the LP64 platforms the programs target. */
  const WordBytes := 8

  datatype Technique =
    | ReedSolVan | ReedSolR6Op | CauchyOrig | CauchyGood
    | Liberation | BlaumRoth | Liber8tion | NoCoding

  /** The technique names the encoder accepts. */
  function TechniqueNamed(name: string): (r: Option<Technique>)
  {
    if name == "no_coding" then Some(NoCoding)
    else if name == "reed_sol_van" then Some(ReedSolVan)
    else if name == "reed_sol_r6_op" then Some(ReedSolR6Op)
    else if name == "cauchy_orig" then Some(CauchyOrig)
    else if name == "cauchy_good" then Some(CauchyGood)
    else if name == "liberation" then Some(Liberation)
    else if name == "blaum_roth" then Some(BlaumRoth)
    else if name == "liber8tion" then Some(Liber8tion)
    else None
  }

  /** The name the programs print for a technique (the Methods table). */
  function TechniqueName(t: Technique): string {
    match t
    case ReedSolVan => "reed_sol_van"
    case ReedSolR6Op => "reed_sol_r6_op"
    case CauchyOrig => "cauchy_orig"
    case CauchyGood => "cauchy_good"
    case Liberation => "liberation"
    case BlaumRoth => "blaum_roth"
    case Liber8tion => "liber8tion"
    case NoCoding => "no_coding"
  }

  /** Names and techniques correspond one to one. */
  lemma TechniqueNames(name: string, t: Technique)
    ensures TechniqueNamed(name) == Some(t) <==> name == TechniqueName(t)
  {
  }

  /** Why the encoder stops; each case is one of its messages. */
  datatype Rejection =
    | InvalidK | InvalidM | InvalidW | InvalidPacketsize | InvalidBuffersize
    | WNotWordSize          // w must be one of {8, 16, 32}
    | MNotTwo               // m must be equal to 2
    | PacketsizeMissing     // must include packetsize
    | KAboveW               // k must be less than or equal to w
    | WNotPrime             // w must be greater than two and w must be prime
    | WPlusOneNotPrime      // w must be greater than two and w+1 must be prime
    | PacketsizeNotWords    // packetsize must be a multiple of sizeof(long)
    | WNotEight             // w must equal 8
    | UnknownTechnique

  datatype Verdict =
    | Accept(technique: Technique)
    | Reject(reason: Rejection)
    | Abort                 // is_prime ran off its table

  /** The checks on the numeric arguments, in the order the encoder makes
      them. */
  function CheckNumbers(k: int, m: int, w: int, packetsize: int, buffersize: int): (r: Option<Rejection>)
    ensures r == None <==> k > 0 && m >= 0 && w > 0 && packetsize >= 0 && buffersize >= 0
  {
    if k <= 0 then Some(InvalidK)
    else if m < 0 then Some(InvalidM)
    else if w <= 0 then Some(InvalidW)
    else if packetsize < 0 then Some(InvalidPacketsize)
    else if buffersize < 0 then Some(InvalidBuffersize)
    else None
  }

  /** The checks of the technique, in the order the encoder makes them.
      liberation and blaum_roth turn down w <= 2 and an even w (w + 1) before
      they ask is_prime about it. */
  function CheckTechnique(t: Technique, k: int, m: int, w: int, packetsize: int): Verdict {
    match t
    case NoCoding => Accept(NoCoding)
    case ReedSolVan =>
      if w != 8 && w != 16 && w != 32 then Reject(WNotWordSize) else Accept(ReedSolVan)
    case ReedSolR6Op =>
      if m != 2 then Reject(MNotTwo)
      else if w != 8 && w != 16 && w != 32 then Reject(WNotWordSize)
      else Accept(ReedSolR6Op)
    case CauchyOrig => if packetsize == 0 then Reject(PacketsizeMissing) else Accept(CauchyOrig)
    case CauchyGood => if packetsize == 0 then Reject(PacketsizeMissing) else Accept(CauchyGood)
    case Liberation =>
      if k > w then Reject(KAboveW)
      else if w <= 2 || w % 2 == 0 then Reject(WNotPrime)
      else
        (match PrimeAnswer(w)
         case None => Abort
         case Some(prime) =>
           if !prime then Reject(WNotPrime)
           else if packetsize == 0 then Reject(PacketsizeMissing)
           else if packetsize % WordBytes != 0 then Reject(PacketsizeNotWords)
           else Accept(Liberation))
    case BlaumRoth =>
      if k > w then Reject(KAboveW)
      else if w <= 2 || (w + 1) % 2 == 0 then Reject(WPlusOneNotPrime)
      else
        (match PrimeAnswer(w + 1)
         case None => Abort
         case Some(prime) =>
           if !prime then Reject(WPlusOneNotPrime)
           else if packetsize == 0 then Reject(PacketsizeMissing)
           else if packetsize % WordBytes != 0 then Reject(PacketsizeNotWords)
           else Accept(BlaumRoth))
    case Liber8tion =>
      if packetsize == 0 then Reject(PacketsizeMissing)
      else if w != 8 then Reject(WNotEight)
      else if m != 2 then Reject(MNotTwo)
      else if k > w then Reject(KAboveW)
      else Accept(Liber8tion)
  }

  /** An even number above 2 is not prime. */
  lemma EvenNotPrime(v: int)
    requires v > 2 && v % 2 == 0
    ensures !IsPrimeNumber(v)
  {
    assert v % 2 == 0;
  }

  /** The whole check: numbers first, then the technique.  The buffer size
      is rounded in between, which no later check looks at. */
  function Validate(name: string, k: int, m: int, w: int, packetsize: int, buffersize: int): Verdict {
    match CheckNumbers(k, m, w, packetsize, buffersize)
    case Some(why) => Reject(why)
    case None =>
      match TechniqueNamed(name)
      case None => Reject(UnknownTechnique)
      case Some(t) => CheckTechnique(t, k, m, w, packetsize)
  }

  /** What each technique demands of the parameters, stated directly. */
  predicate Admissible(t: Technique, k: int, m: int, w: int, packetsize: int) {
    match t
    case NoCoding => true
    case ReedSolVan => w in {8, 16, 32}
    case ReedSolR6Op => m == 2 && w in {8, 16, 32}
    case CauchyOrig => packetsize != 0
    case CauchyGood => packetsize != 0
    case Liberation =>
      k <= w && w > 2 && IsPrimeNumber(w) && packetsize != 0 && packetsize % WordBytes == 0
    case BlaumRoth =>
      k <= w && w > 2 && IsPrimeNumber(w + 1) && packetsize != 0 && packetsize % WordBytes == 0
    case Liber8tion => packetsize != 0 && w == 8 && m == 2 && k <= w
  }

  /** The checks of a technique never abort and accept exactly its
      admissible parameters.  Only liberation and blaum_roth ask is_prime,
      so only they need w within the range of its table: w <= 257 (for
      blaum_roth, w = 257 is turned down by the even test on w + 1). */
  lemma TechniqueAccepts(t: Technique, k: int, m: int, w: int, packetsize: int)
    requires w <= 257 || (t != Liberation && t != BlaumRoth)
    ensures CheckTechnique(t, k, m, w, packetsize) != Abort
    ensures CheckTechnique(t, k, m, w, packetsize).Accept? <==> Admissible(t, k, m, w, packetsize)
    ensures CheckTechnique(t, k, m, w, packetsize).Accept? ==>
              CheckTechnique(t, k, m, w, packetsize).technique == t
  {
    if 2 < w && w <= 257 {
      IsPrimeCorrect(w);
      if w < 257 {
        IsPrimeCorrect(w + 1);
      }
      if w % 2 == 0 {
        EvenNotPrime(w);
      } else {
        EvenNotPrime(w + 1);
      }
    }
  }

  /** The encoder accepts exactly the admissible parameters, never aborts,
      and picks the named technique; for liberation and blaum_roth this
      holds within the range of is_prime's table (w <= 257). */
  lemma ValidateAccepts(name: string, k: int, m: int, w: int, packetsize: int, buffersize: int, t: Technique)
    requires w <= 257 || (name != "liberation" && name != "blaum_roth")
    ensures Validate(name, k, m, w, packetsize, buffersize) != Abort
    ensures Validate(name, k, m, w, packetsize, buffersize) == Accept(t) <==>
              k > 0 && m >= 0 && w > 0 && packetsize >= 0 && buffersize >= 0 &&
              name == TechniqueName(t) && Admissible(t, k, m, w, packetsize)
  {
    TechniqueNames(name, t);
    match TechniqueNamed(name)
    case None =>
    case Some(t') =>
      TechniqueAccepts(t', k, m, w, packetsize);
      TechniqueNames(name, t');
  }

  /** liberation with a prime w beyond 257 (and k <= w) aborts instead of
      accepting. */
  lemma LiberationAbortsBeyondTable(k: int, m: int, w: int, packetsize: int, buffersize: int)
    requires k > 0 && m >= 0 && packetsize >= 0 && buffersize >= 0
    requires k <= w && IsPrimeNumber(w) && w > 257
    ensures Validate("liberation", k, m, w, packetsize, buffersize) == Abort
  {
    assert w % 2 != 0;
    LargePrimeAborts(w);
  }

  /** blaum_roth with w + 1 a prime beyond 257 (and k <= w) aborts instead
      of accepting. */
  lemma BlaumRothAbortsBeyondTable(k: int, m: int, w: int, packetsize: int, buffersize: int)
    requires k > 0 && m >= 0 && packetsize >= 0 && buffersize >= 0
    requires k <= w && IsPrimeNumber(w + 1) && w + 1 > 257
    ensures Validate("blaum_roth", k, m, w, packetsize, buffersize) == Abort
  {
    assert (w + 1) % 2 != 0;
    LargePrimeAborts(w + 1);
  }
}
