/**
 Reading back the text the duration formatter prints. The reader is the inverse
 of `Duration.RenderEntries`: it accepts exactly the renderings of entry lists,
 and returns the entries that were rendered.
 */
module DurationText {
  import opened Options
  import opened Decimal
  import opened Duration

  /** The longest prefix of `s` made of digits. */
  function TakeDigits(s: string): (d: string)
    ensures AllDigits(d) && d <= s
    ensures |d| < |s| ==> !IsDigit(s[|d|])
  {
    if s != [] && IsDigit(s[0]) then [s[0]] + TakeDigits(s[1..]) else []
  }

  /** The longest prefix of `s` without a space. */
  function TakeWord(s: string): (w: string)
    ensures w <= s && ' ' !in w
    ensures |w| < |s| ==> s[|w|] == ' '
  {
    if s != [] && s[0] != ' ' then [s[0]] + TakeWord(s[1..]) else []
  }

  /** Which unit a word names, and whether it is the plural form. */
  function LookupUnit(w: string, i: nat): (r: Option<(UnitIndex, bool)>)
    requires i <= NumUnits
    ensures r.Some? ==> i <= r.value.0 && w == UnitNames[r.value.0] + Suffix(r.value.1)
    decreases NumUnits - i
  {
    if i == NumUnits then None
    else if w == UnitNames[i] then Some((i, false))
    else if w == UnitNames[i] + "s" then Some((i, true))
    else LookupUnit(w, i + 1)
  }

  /** Reads a canonical decimal number off the front of `s`. */
  function ParseNumber(s: string): (r: Option<(nat, string)>)
    ensures r.Some? ==> |r.value.1| < |s|
  {
    var d := TakeDigits(s);
    if Canonical(d) then Some((Value(d), s[|d|..])) else None
  }

  /** Reads one space off the front of `s`. */
  function ParseSpace(s: string): (r: Option<string>)
    ensures r.Some? ==> |r.value| < |s|
  {
    if s != [] && s[0] == ' ' then Some(s[1..]) else None
  }

  /** Reads a unit name, singular or plural, off the front of `s`. */
  function ParseUnit(s: string): (r: Option<(UnitIndex, bool, string)>)
    ensures r.Some? ==> |r.value.2| <= |s|
  {
    var w := TakeWord(s);
    match LookupUnit(w, 0)
    case None => None
    case Some(u) => Some((u.0, u.1, s[|w|..]))
  }

  /** Reads one "<value> <unit>[s] " entry off the front of `s`. */
  function ParseEntry(s: string): (r: Option<(Entry, string)>)
    ensures r.Some? ==> |r.value.1| < |s|
  {
    var num := ParseNumber(s);
    if num.None? then None else
    var s2 := ParseSpace(num.value.1);
    if s2.None? then None else
    var unit := ParseUnit(s2.value);
    if unit.None? then None else
    var s4 := ParseSpace(unit.value.2);
    if s4.None? || unit.value.1 != (num.value.0 != 1) then None
    else Some((Entry(num.value.0, unit.value.0), s4.value))
  }

  /** Reads a whole sequence of entries; `None` if `s` is not such a text. */
  function ParseEntries(s: string): Option<seq<Entry>>
    decreases |s|
  {
    if s == [] then Some([])
    else match ParseEntry(s)
      case None => None
      case Some(p) =>
        match ParseEntries(p.1)
        case None => None
        case Some(es) => Some([p.0] + es)
  }

  lemma {:induction false} TakeDigitsOf(p: string, x: string)
    requires AllDigits(p) && (x == [] || !IsDigit(x[0]))
    ensures TakeDigits(p + x) == p
    decreases |p|
  {
    if p != [] {
      assert (p + x)[1..] == p[1..] + x;
      TakeDigitsOf(p[1..], x);
    }
  }

  lemma {:induction false} TakeWordOf(w: string, x: string)
    requires ' ' !in w && (x == [] || x[0] == ' ')
    ensures TakeWord(w + x) == w
    decreases |w|
  {
    if w != [] {
      assert (w + x)[1..] == w[1..] + x;
      TakeWordOf(w[1..], x);
    }
  }

  /** The unit names begin with six different two-letter prefixes. */
  lemma NamePrefixesDistinct(i: UnitIndex, j: UnitIndex)
    ensures |UnitNames[i]| >= 3 && ' ' !in UnitNames[i]
    ensures i != j ==> UnitNames[i][..2] != UnitNames[j][..2]
  {
    var pre := ["ye", "mo", "da", "ho", "mi", "se"];
    assert UnitNames[i][..2] == pre[i] && UnitNames[j][..2] == pre[j];
    if i != j {
      assert pre[i][0] != pre[j][0] || pre[i][1] != pre[j][1];
    }
  }

  lemma {:induction false} LookupFrom(u: UnitIndex, plural: bool, i: nat)
    requires i <= u
    ensures LookupUnit(UnitNames[u] + Suffix(plural), i) == Some((u, plural))
    decreases u - i
  {
    var w := UnitNames[u] + Suffix(plural);
    if i < u {
      NamePrefixesDistinct(i, u);
      assert w[..2] == UnitNames[u][..2];
      assert (UnitNames[i] + "s")[..2] == UnitNames[i][..2];
      LookupFrom(u, plural, i + 1);
    }
  }

  /** Every unit name, singular or plural, is recognised as that unit. */
  lemma LookupUnitName(u: UnitIndex, plural: bool)
    ensures LookupUnit(UnitNames[u] + Suffix(plural), 0) == Some((u, plural))
  {
    LookupFrom(u, plural, 0);
  }

  lemma ParseNumberOf(n: nat, x: string)
    requires x == [] || !IsDigit(x[0])
    ensures ParseNumber(ToDecimal(n) + x) == Some((n, x))
  {
    TakeDigitsOf(ToDecimal(n), x);
    ValueOfDecimal(n);
  }

  lemma ParsedNumber(s: string)
    requires ParseNumber(s).Some?
    ensures s == ToDecimal(ParseNumber(s).value.0) + ParseNumber(s).value.1
  {
    var d := TakeDigits(s);
    DecimalOfValue(d);
  }

  lemma ParseUnitOf(u: UnitIndex, plural: bool, x: string)
    requires x == [] || x[0] == ' '
    ensures ParseUnit(UnitNames[u] + Suffix(plural) + x) == Some((u, plural, x))
  {
    NamePrefixesDistinct(u, u);
    TakeWordOf(UnitNames[u] + Suffix(plural), x);
    LookupUnitName(u, plural);
  }

  lemma ParsedUnit(s: string)
    requires ParseUnit(s).Some?
    ensures var p := ParseUnit(s).value; s == UnitNames[p.0] + Suffix(p.1) + p.2
  {
  }

  lemma RenderEntryPieces(e: Entry, rest: string)
    ensures RenderEntry(e) + rest
      == ToDecimal(e.value) + ([' '] + (UnitNames[e.unit] + PluralSuffix(e.value) + ([' '] + rest)))
  {
  }

  /** Reading a rendered entry gives that entry and leaves the rest untouched. */
  lemma ParseRenderedEntry(e: Entry, rest: string)
    ensures ParseEntry(RenderEntry(e) + rest) == Some((e, rest))
  {
    var plural := e.value != 1;
    var d := ToDecimal(e.value);
    var w := UnitNames[e.unit] + Suffix(plural);
    var tail := w + ([' '] + rest);
    RenderEntryPieces(e, rest);
    ParseNumberOf(e.value, [' '] + tail);
    assert ParseSpace([' '] + tail) == Some(tail);
    ParseUnitOf(e.unit, plural, [' '] + rest);
    assert ParseUnit(tail) == Some((e.unit, plural, [' '] + rest));
    assert ParseSpace([' '] + rest) == Some(rest);
  }

  /** What one entry read accepts is a rendered entry followed by the rest. */
  lemma ParsedEntryIsRendered(s: string)
    requires ParseEntry(s).Some?
    ensures s == RenderEntry(ParseEntry(s).value.0) + ParseEntry(s).value.1
  {
    var num := ParseNumber(s).value;
    ParsedNumber(s);
    var s2 := ParseSpace(num.1).value;
    var unit := ParseUnit(s2).value;
    ParsedUnit(s2);
    var s4 := ParseSpace(unit.2).value;
    assert ParseEntry(s).value == (Entry(num.0, unit.0), s4);
    assert num.1 == [' '] + s2 && unit.2 == [' '] + s4;
    var e := ParseEntry(s).value.0;
    assert e == Entry(num.0, unit.0) && unit.1 == (e.value != 1);
    var w := UnitNames[e.unit] + Suffix(unit.1);
    assert s2 == w + ([' '] + s4);
    assert s == ToDecimal(e.value) + ([' '] + (w + ([' '] + s4)));
    RenderEntryPieces(e, s4);
  }

  /** Rendering then reading a list of entries gives the list back. */
  lemma {:induction false} ParseRendered(es: seq<Entry>)
    ensures ParseEntries(RenderEntries(es)) == Some(es)
  {
    if es != [] {
      var rest := RenderEntries(es[1..]);
      ParseRenderedEntry(es[0], rest);
      ParseRendered(es[1..]);
      assert [es[0]] + es[1..] == es;
    }
  }

  /** Whatever the reader accepts is the rendering of what it returns. */
  lemma {:induction false} ParsedIsRendered(s: string)
    requires ParseEntries(s).Some?
    ensures RenderEntries(ParseEntries(s).value) == s
    decreases |s|
  {
    if s != [] {
      var p := ParseEntry(s).value;
      ParsedEntryIsRendered(s);
      ParsedIsRendered(p.1);
      var es := ParseEntries(s).value;
      assert es[0] == p.0 && es[1..] == ParseEntries(p.1).value;
    }
  }

  /**
   Within the 32-bit range the formatted text reads back as exactly the printed
   entries; each is "<value> <unit>" with an "s" exactly when the value is not one,
   followed by one space.
   */
  lemma FormatReadsBack(t: nat)
    requires t <= Uint32Max
    ensures ParseEntries(FormatTimeInterval(t)) == Some(Entries(t))
  {
    ParseRendered(Entries(t));
  }

  /**
   Above the 32-bit range the text is a whole number of years and nothing else:
   the decimal of `t / 31556952` followed by " years".
   */
  lemma FormatYearsOnly(t: nat)
    requires t > Uint32Max
    ensures var r := FormatTimeInterval(t);
      && |r| > 6
      && r[|r| - 6..] == " years"
      && Canonical(r[..|r| - 6])
      && Value(r[..|r| - 6]) == t / 31556952
  {
    var r := FormatTimeInterval(t);
    var d := ToDecimal(t / SecondsPerUnit[0]);
    assert r == d + " years";
    assert r[..|r| - 6] == d;
    ValueOfDecimal(t / SecondsPerUnit[0]);
  }

  lemma Decompose130()
    ensures Decompose(130) == [0, 0, 0, 0, 2, 10]
  {
    var v := [0, 0, 0, 0, 2, 10];
    assert TailSeconds(v, 5) == 10 && TailSeconds(v, 4) == 130;
    assert TailSeconds(v, 2) == TailSeconds(v, 3) == 130;
    assert Seconds(v) == TailSeconds(v, 1) == 130;
    assert Normalized(v);
    DecomposeUnique(130, v);
  }

  lemma Decompose3600()
    ensures Decompose(3600) == [0, 0, 0, 1, 0, 0]
  {
    var v := [0, 0, 0, 1, 0, 0];
    assert TailSeconds(v, 5) == 0 && TailSeconds(v, 4) == 0 && TailSeconds(v, 3) == 3600;
    assert TailSeconds(v, 2) == 3600;
    assert Seconds(v) == TailSeconds(v, 1) == 3600;
    assert Normalized(v);
    DecomposeUnique(3600, v);
  }

  lemma TenSeconds()
    ensures RenderEntry(Entry(10, 5)) == "10 seconds "
  {
    assert ToDecimal(1) == "1" && ToDecimal(10) == ToDecimal(1) + "0";
  }

  lemma Entries130()
    ensures Entries(130) == [Entry(2, 4), Entry(10, 5)]
  {
    Decompose130();
    var v := Decompose(130);
    assert FirstNonZero(v, 2) == FirstNonZero(v, 4) == 4;
    assert FirstNonZero(v, 0) == FirstNonZero(v, 2);
  }

  lemma Entries3600()
    ensures Entries(3600) == [Entry(1, 3), Entry(0, 4), Entry(0, 5)]
  {
    Decompose3600();
    var v := Decompose(3600);
    assert FirstNonZero(v, 2) == FirstNonZero(v, 3) == 3;
    assert FirstNonZero(v, 0) == FirstNonZero(v, 2);
  }

  lemma HourMinuteSecond()
    ensures RenderEntry(Entry(1, 3)) == "1 hour "
    ensures RenderEntry(Entry(0, 4)) == "0 minutes "
    ensures RenderEntry(Entry(0, 5)) == "0 seconds "
  {
    assert ToDecimal(1) == "1" && ToDecimal(0) == "0";
  }

  /** A worked value: 130 seconds print as two minutes and ten seconds. */
  lemma FormatExample130()
    ensures FormatTimeInterval(130) == "2 minutes 10 seconds "
  {
    Entries130();
    var es := [Entry(2, 4), Entry(10, 5)];
    assert FormatTimeInterval(130) == RenderEntries(es);
    TenSeconds();
    assert RenderEntry(es[0]) == "2 minutes ";
    assert RenderEntries(es[1..]) == RenderEntry(es[1]);
    assert RenderEntries(es) == RenderEntry(es[0]) + RenderEntry(es[1]);
  }

  lemma RenderHourMinuteSecond()
    ensures RenderEntries([Entry(1, 3), Entry(0, 4), Entry(0, 5)]) == "1 hour 0 minutes 0 seconds "
  {
    var es := [Entry(1, 3), Entry(0, 4), Entry(0, 5)];
    HourMinuteSecond();
    assert RenderEntries(es[2..]) == RenderEntry(es[2]);
    assert RenderEntries(es[1..]) == RenderEntry(es[1]) + RenderEntry(es[2]);
    assert RenderEntries(es) == RenderEntry(es[0]) + (RenderEntry(es[1]) + RenderEntry(es[2]));
    assert "1 hour " + ("0 minutes " + "0 seconds ") == "1 hour 0 minutes 0 seconds ";
  }

  /** A worked value: one hour prints the zero minutes and seconds after it. */
  lemma FormatExample3600()
    ensures FormatTimeInterval(3600) == "1 hour 0 minutes 0 seconds "
  {
    Entries3600();
    assert FormatTimeInterval(3600) == RenderEntries([Entry(1, 3), Entry(0, 4), Entry(0, 5)]);
    RenderHourMinuteSecond();
  }
}
