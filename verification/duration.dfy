/**
 The duration formatter `formatTimeInterval` of the mining page: a second count
 becomes a short English text such as "2 minutes 10 seconds ".

 Counts above the 32-bit unsigned range are printed as whole years only. Smaller
 counts are split greedily into years, months, days, hours, minutes and seconds
 (using the fixed average lengths of the Gregorian year and month), and up to
 three consecutive units are printed, starting at the first non-zero one:
 min(3, 6 - first) of them, and none when the count is zero.
 */
module Duration {
  import opened Decimal

  const NumUnits: nat := 6

  /** Seconds per year, month, day, hour, minute and second, in that order. */
  const SecondsPerUnit: seq<nat> := [31556952, 31556952 / 12, 24 * 60 * 60, 60 * 60, 60, 1]

  const UnitNames: seq<string> := ["year", "month", "day", "hour", "minute", "second"]

  /** The largest value of a 32-bit unsigned second count. */
  const Uint32Max: nat := 0xFFFF_FFFF

  /** How many units are printed at most. */
  const MaxShown: nat := 3

  type UnitIndex = u: nat | u < 6

  /** One printed unit: its magnitude and which unit it is. */
  datatype Entry = Entry(value: nat, unit: UnitIndex)

  /** The seconds still to be distributed once units `0 .. i-1` have taken their share. */
  function Remainder(t: nat, i: nat): nat
    requires i <= NumUnits
  {
    if i == 0 then t else Remainder(t, i - 1) % SecondsPerUnit[i - 1]
  }

  /** The mixed-radix split of `t`: one magnitude per unit, most significant first. */
  function Decompose(t: nat): (v: seq<nat>)
    ensures |v| == NumUnits
  {
    seq(NumUnits, i requires 0 <= i < NumUnits => Remainder(t, i) / SecondsPerUnit[i])
  }

  /** The seconds that magnitudes `v[i..]` stand for. */
  function TailSeconds(v: seq<nat>, i: nat): nat
    requires |v| == NumUnits && i <= NumUnits
    decreases NumUnits - i
  {
    if i == NumUnits then 0 else v[i] * SecondsPerUnit[i] + TailSeconds(v, i + 1)
  }

  /** The seconds that a full set of magnitudes stands for. */
  function Seconds(v: seq<nat>): nat
    requires |v| == NumUnits
  {
    TailSeconds(v, 0)
  }

  /**
   Every unit after the first holds less than one of the unit above it, and so do
   all the units below it together: what a greedy split produces.
   */
  predicate Normalized(v: seq<nat>)
    requires |v| == NumUnits
  {
    forall i :: 1 <= i <= NumUnits ==> TailSeconds(v, i) < SecondsPerUnit[i - 1]
  }

  /** The index of the first non-zero magnitude at or after `i`, or `NumUnits` if none. */
  function FirstNonZero(v: seq<nat>, i: nat): (f: nat)
    requires |v| == NumUnits && i <= NumUnits
    ensures i <= f <= NumUnits
    ensures forall j :: i <= j < f ==> v[j] == 0
    ensures f < NumUnits ==> v[f] != 0
    decreases NumUnits - i
  {
    if i < NumUnits && v[i] == 0 then FirstNonZero(v, i + 1) else i
  }

  function Min(a: int, b: int): int {
    if a <= b then a else b
  }

  /** The units that get printed: up to three consecutive ones from the first non-zero one. */
  function Shown(v: seq<nat>): (es: seq<Entry>)
    requires |v| == NumUnits
    ensures |es| <= MaxShown
    ensures es == [] <==> forall j :: 0 <= j < NumUnits ==> v[j] == 0
    ensures forall k :: 0 <= k < |es| ==> es[k].value == v[es[k].unit]
    ensures forall k :: 0 < k < |es| ==> es[k].unit == es[k - 1].unit + 1
    // the first shown unit is the first non-zero one, and as many follow as fit
    ensures es != [] ==>
      && es[0].value != 0
      && (forall j :: 0 <= j < es[0].unit ==> v[j] == 0)
      && |es| == Min(MaxShown, NumUnits - es[0].unit)
  {
    var f := FirstNonZero(v, 0);
    var stop := Min(f + MaxShown, NumUnits);
    seq(stop - f, k requires 0 <= k < stop - f => Entry(v[f + k], f + k))
  }

  /** The entries printed for a second count within the 32-bit range. */
  function Entries(t: nat): (es: seq<Entry>)
    ensures |es| <= MaxShown
    ensures forall k :: 0 <= k < |es| ==> es[k].value == Decompose(t)[es[k].unit]
  {
    Shown(Decompose(t))
  }

  /** The ending of a unit word: "s" for the plural form, nothing for the singular. */
  function Suffix(plural: bool): string {
    if plural then "s" else ""
  }

  /** English plural: an "s" unless the magnitude is exactly one. */
  function PluralSuffix(value: nat): string {
    Suffix(value != 1)
  }

  /** "<value> <unit>", then the plural suffix, then one space. */
  function RenderEntry(e: Entry): (s: string)
    ensures |s| >= 2 && s[|s| - 1] == ' '
    ensures |s| > |ToDecimal(e.value)| + 1
      && s[..|ToDecimal(e.value)|] == ToDecimal(e.value) && s[|ToDecimal(e.value)|] == ' '
    // no unit name ends in "s", so the letter before the final space is an "s" exactly for plurals
    ensures s[|s| - 2] == 's' <==> e.value != 1
  {
    ToDecimal(e.value) + " " + UnitNames[e.unit] + PluralSuffix(e.value) + " "
  }

  function RenderEntries(es: seq<Entry>): string {
    if es == [] then "" else RenderEntry(es[0]) + RenderEntries(es[1..])
  }

  function FormatTimeInterval(t: nat): (s: string)
    ensures t > Uint32Max ==>
      var n := ToDecimal(t / SecondsPerUnit[0]);
      |s| == |n| + 6 && s[..|n|] == n && s[|n|..] == " years"
    ensures t <= Uint32Max ==> (s == "" <==> t == 0)
  {
    if t > Uint32Max then
      ToDecimal(t / SecondsPerUnit[0]) + " years"
    else
      EntriesEmptyIffZero(t);
      RenderEntries(Entries(t))
  }

  /** The magnitudes from unit `i` on account for exactly what remained before unit `i`. */
  lemma {:induction false} TailIsRemainder(t: nat, i: nat)
    requires i <= NumUnits
    ensures TailSeconds(Decompose(t), i) == Remainder(t, i)
    decreases NumUnits - i
  {
    if i < NumUnits {
      TailIsRemainder(t, i + 1);
      var v := Decompose(t);
      var r := Remainder(t, i);
      var s := SecondsPerUnit[i];
      assert v[i] == r / s;
      assert Remainder(t, i + 1) == r % s;
      DivModSplit(r, s);
      assert TailSeconds(v, i) == v[i] * s + TailSeconds(v, i + 1);
    } else {
      assert SecondsPerUnit[NumUnits - 1] == 1;
    }
  }

  /**
   The split reconstructs the count, is normalized, and meets the per-unit bound:
   a unit other than the first never holds a full unit above it.
   */
  lemma DecomposeReconstructs(t: nat)
    ensures Seconds(Decompose(t)) == t
    ensures Normalized(Decompose(t))
    ensures forall i :: 1 <= i < NumUnits ==>
      Decompose(t)[i] * SecondsPerUnit[i] < SecondsPerUnit[i - 1]
  {
    var v := Decompose(t);
    TailIsRemainder(t, 0);
    forall i | 1 <= i <= NumUnits
      ensures TailSeconds(v, i) < SecondsPerUnit[i - 1]
    {
      TailIsRemainder(t, i);
    }
    forall i | 1 <= i < NumUnits
      ensures v[i] * SecondsPerUnit[i] < SecondsPerUnit[i - 1]
    {
      assert v[i] * SecondsPerUnit[i] <= TailSeconds(v, i);
    }
  }

  lemma UnitPositive(i: nat)
    requires i < NumUnits
    ensures SecondsPerUnit[i] >= 1
  {
  }

  lemma MulAtLeast(d: int, b: nat)
    requires d >= 1
    ensures d * b >= b
  {
  }

  /** A multiple of `b` strictly between `-b` and `b` is zero. */
  lemma MulSmall(x: int, b: nat)
    requires b > 0 && -(b as int) < x * b < b
    ensures x == 0
  {
    if x > 0 {
      MulAtLeast(x, b);
      assert false;
    } else if x < 0 {
      MulAtLeast(-x, b);
      assert false;
    }
  }

  /** Quotient and remainder are determined by the division equation. */
  lemma DivModUnique(a: nat, b: nat, q: nat, r: nat)
    requires b > 0 && a == q * b + r && r < b
    ensures q == a / b && r == a % b
  {
    var q', r' := a / b, a % b;
    assert (q - q') * b == r' - r;
    MulSmall(q - q', b);
  }

  lemma DivModSplit(a: nat, b: nat)
    requires b > 0
    ensures (a / b) * b + a % b == a
  {
  }

  /** A normalized split of `t` agrees with the greedy split from unit `i` on. */
  lemma {:induction false} NormalizedTail(t: nat, v: seq<nat>, i: nat)
    requires |v| == NumUnits && Normalized(v) && Seconds(v) == t && i <= NumUnits
    ensures TailSeconds(v, i) == Remainder(t, i)
    ensures forall j :: 0 <= j < i ==> v[j] == Decompose(t)[j]
  {
    if i > 0 {
      NormalizedTail(t, v, i - 1);
      var s := SecondsPerUnit[i - 1];
      DivModUnique(TailSeconds(v, i - 1), s, v[i - 1], TailSeconds(v, i));
    }
  }

  /** The greedy split is the only normalized split of `t`. */
  lemma DecomposeUnique(t: nat, v: seq<nat>)
    requires |v| == NumUnits && Normalized(v) && Seconds(v) == t
    ensures v == Decompose(t)
  {
    NormalizedTail(t, v, NumUnits);
  }

  /**
   The per-unit bound alone does not single out the split: thirty days, ten hours,
   twenty-nine minutes and six seconds also make one average month.
   */
  lemma PerUnitBoundNotUnique()
    ensures var v := [0, 0, 30, 10, 29, 6];
      && (forall i :: 1 <= i < NumUnits ==> v[i] * SecondsPerUnit[i] < SecondsPerUnit[i - 1])
      && Seconds(v) == SecondsPerUnit[1]
      && v != Decompose(SecondsPerUnit[1])
  {
    var v := [0, 0, 30, 10, 29, 6];
    assert Decompose(SecondsPerUnit[1])[1] == 1;
  }

  /** The seconds the shown entries stand for. */
  function ShownSeconds(es: seq<Entry>): nat {
    if es == [] then 0 else es[0].value * SecondsPerUnit[es[0].unit] + ShownSeconds(es[1..])
  }

  lemma {:induction false} ShownSecondsIsTail(v: seq<nat>, f: nat, stop: nat, es: seq<Entry>)
    requires |v| == NumUnits && f <= stop <= NumUnits
    requires |es| == stop - f
    requires forall k :: 0 <= k < |es| ==> es[k] == Entry(v[f + k], f + k)
    ensures ShownSeconds(es) + TailSeconds(v, stop) == TailSeconds(v, f)
    decreases stop - f
  {
    if f < stop {
      ShownSecondsIsTail(v, f + 1, stop, es[1..]);
    }
  }

  /**
   At most three entries are printed, for consecutive units starting at the first
   non-zero one; every unit before it is zero.
   */
  lemma EntriesAreConsecutive(t: nat)
    ensures var es := Entries(t); var v := Decompose(t); var f := FirstNonZero(v, 0);
      && |es| <= MaxShown
      && |es| == Min(MaxShown, NumUnits - f)
      && (forall j :: 0 <= j < f ==> v[j] == 0)
      && (forall k :: 0 <= k < |es| ==> es[k].unit == f + k && es[k].value == v[f + k])
      && (es != [] ==> es[0].value != 0)
  {
  }

  /** Nothing at all is printed exactly when the count is zero. */
  lemma EntriesEmptyIffZero(t: nat)
    ensures Entries(t) == [] <==> t == 0
  {
    var v := Decompose(t);
    var f := FirstNonZero(v, 0);
    DecomposeReconstructs(t);
    ZeroTailBefore(v, f);
    var es := Entries(t);
    assert |es| == Min(f + MaxShown, NumUnits) - f;
    if f == NumUnits {
      assert t == TailSeconds(v, NumUnits) == 0;
    } else {
      assert |es| >= 1;
      UnitPositive(f);
      MulAtLeast(v[f], SecondsPerUnit[f]);
      assert TailSeconds(v, f) == v[f] * SecondsPerUnit[f] + TailSeconds(v, f + 1);
    }
  }

  /**
   The printed entries round the count down: they fall short of it by less than
   one of the last printed unit.
   */
  lemma EntriesRoundDown(t: nat)
    ensures ShownSeconds(Entries(t)) <= t
    ensures var es := Entries(t);
      es != [] ==> t - ShownSeconds(es) < SecondsPerUnit[es[|es| - 1].unit]
  {
    var es := Entries(t);
    var v := Decompose(t);
    var f := FirstNonZero(v, 0);
    var stop := Min(f + MaxShown, NumUnits);
    DecomposeReconstructs(t);
    ShownSecondsIsTail(v, f, stop, es);
    ZeroTailBefore(v, f);
    if es != [] {
      assert es[|es| - 1].unit == stop - 1;
      assert TailSeconds(v, stop) < SecondsPerUnit[stop - 1];
    }
  }

  /** Units before the first non-zero one contribute nothing. */
  lemma {:induction false} ZeroTailBefore(v: seq<nat>, f: nat)
    requires |v| == NumUnits && f <= NumUnits
    requires forall j :: 0 <= j < f ==> v[j] == 0
    ensures TailSeconds(v, 0) == TailSeconds(v, f)
  {
    ZeroPrefix(v, 0, f);
  }

  lemma {:induction false} ZeroPrefix(v: seq<nat>, i: nat, f: nat)
    requires |v| == NumUnits && i <= f <= NumUnits
    requires forall j :: i <= j < f ==> v[j] == 0
    ensures TailSeconds(v, i) == TailSeconds(v, f)
    decreases f - i
  {
    if i < f {
      ZeroPrefix(v, i + 1, f);
    }
  }
}
