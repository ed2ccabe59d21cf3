/**
 The integer side of the statistics the mining page shows on every refresh
 (`updateUI`): the scale of a hash-rate label, and the expected time to the next
 block, `2^256 / (target * hashrate)` seconds, printed with the duration formatter.
 */
module Stats {
  import opened Duration

  const TwoPow256: nat := 0x1_0000_0000_0000_0000_0000_0000_0000_0000_0000_0000_0000_0000_0000_0000_0000_0000

  /** The label shown when there is no local hash rate: the infinity sign. */
  const Infinity: string := "\U{221E}"

  /** Scale letters; index `i` is the prefix for `1000^i`, index 0 is unused. */
  const Prefixes: string := " kMGTPEZY"

  const ZeroRateText: string := "0 Primes/s"

  function Pow1000(e: nat): (p: nat)
    ensures p >= 1
  {
    if e == 0 then 1 else 1000 * Pow1000(e - 1)
  }

  /** The largest `e` with `1000^e <= n`, i.e. the floor of the base-1000 logarithm. */
  function ScaleExponent(n: nat): (e: nat)
    requires n >= 1
    ensures Pow1000(e) <= n < Pow1000(e + 1)
    decreases n
  {
    if n < 1000 then 0 else 1 + ScaleExponent(n / 1000)
  }

  function PrefixOf(e: nat): string {
    if 1 <= e < |Prefixes| then [Prefixes[e]] else ""
  }

  /**
   A hash-rate label: the fixed zero text, or a mantissa (not modelled) followed by
   " <prefix>Primes/s" at a thousand-power scale.
   */
  datatype RateLabel = ZeroRate(text: string) | Scaled(exponent: nat, unit: string)

  function FormatHashrate(n: nat): (r: RateLabel)
    ensures n == 0 <==> r == ZeroRate(ZeroRateText)
    ensures r.Scaled? ==> Pow1000(r.exponent) <= n < Pow1000(r.exponent + 1)
    ensures r.Scaled? ==> r.unit == PrefixOf(r.exponent) + "Primes/s"
  {
    if n == 0 then ZeroRate(ZeroRateText)
    else
      var e := ScaleExponent(n);
      Scaled(e, PrefixOf(e) + "Primes/s")
  }

  /** The expected seconds to the next block: the integer quotient of `2^256` by `target * hashrate`. */
  function ExpectedSeconds(hashrate: nat, target: nat): (s: nat)
    requires hashrate > 0 && target > 0
    ensures s * (target * hashrate) <= TwoPow256 < (s + 1) * (target * hashrate)
  {
    var d := target * hashrate;
    var q := TwoPow256 / d;
    assert TwoPow256 == q * d + TwoPow256 % d;
    assert (q + 1) * d == q * d + d;
    q
  }

  /** What the next-block label becomes: a text, or the big-number division fault when the target is zero. */
  datatype NextBlock = Label(text: string) | DivisionFault

  function NextBlockTime(hashrate: nat, target: nat): (r: NextBlock)
    ensures hashrate == 0 <==> r == Label(Infinity)
    ensures r == DivisionFault <==> hashrate > 0 && target == 0
    ensures hashrate > 0 && target > 0 ==>
      r == Label(FormatTimeInterval(ExpectedSeconds(hashrate, target)))
  {
    if hashrate == 0 then Label(Infinity)
    else if target == 0 then DivisionFault
    else Label(FormatTimeInterval(ExpectedSeconds(hashrate, target)))
  }

  lemma MulMonotone(x: nat, y: nat, b: nat)
    requires x <= y
    ensures x * b <= y * b
  {
  }

  /** Any multiplier whose multiple stays within `a` is at most the quotient. */
  lemma AtMostQuotient(q: nat, a: nat, b: nat)
    requires b > 0 && q * b <= a
    ensures q <= a / b
  {
    if q > a / b {
      MulMonotone(a / b + 1, q, b);
      assert false;
    }
  }

  lemma DivAntitone(a: nat, b: nat, c: nat)
    requires 0 < b <= c
    ensures a / c <= a / b
  {
    var q := a / c;
    MulMonotone(b, c, q);
    AtMostQuotient(q, a, b);
  }

  /** More local hash power never makes the expected time to the next block longer. */
  lemma ExpectedSecondsAntitone(h1: nat, h2: nat, target: nat)
    requires 0 < h1 <= h2 && target > 0
    ensures ExpectedSeconds(h2, target) <= ExpectedSeconds(h1, target)
  {
    assert target * h1 <= target * h2;
    DivAntitone(TwoPow256, target * h1, target * h2);
  }
}
