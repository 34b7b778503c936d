/** What durations mean: every unit, a bare number, the words for no expiry, and what is printed. */
module DurationLaws {
  import opened Wrappers
  import opened Words
  import opened Durations

  // ---- words and bare numbers ----

  /** The words for no expiry. */
  ghost predicate IsNever(text: string) {
    || text == "never" || text == "none" || text == "off"
    || text == "infinite" || text == "indefinite" || text == "forever"
  }

  /** No expiry is given by leaving the setting out, by `false`, and by exactly these words in any case. */
  lemma {:induction false} NoExpiryExactly(value: Setting)
    ensures Parse(value) == Ok(None) <==>
            match value
            case Missing => true
            case Flag(flag) => !flag
            case Text(text) => IsNever(Lower(Trim(text)))
            case _ => false
  {
    if value.Text? {
      var text := Lower(Trim(value.text));
      NeverWords(text);
      hide NEVER, IsNever;
      if Scan(text, UNITS).Some? {
        TotalIsFinite(Scan(text, UNITS).value);
      }
    }
  }

  lemma NeverWords(text: string)
    ensures text in NEVER <==> IsNever(text)
  {
  }

  lemma TotalIsFinite(got: seq<Option<string>>)
    requires |got| == 4 && AreAmounts(got)
    ensures Total(got) != Ok(None)
  {
  }

  /** A bare number is minutes. */
  lemma {:induction false} BareNumberIsMinutes(n: nat)
    ensures Parse(Text(Decimal(n))) == Ok(Some(60.0 * n as real))
  {
    var text := Decimal(n);
    DigitsAlone(text);
    IntOfDecimal(n);
    assert text !in NEVER by {
      NeverIsWord(text);
      hide NEVER;
    }
    hide NEVER, Scan, Decimal, Int, DigitsLength;
    assert text[..DigitsLength(text)] == text;
  }

  /** A number is minutes if it is above zero, to half a microsecond; a `timedelta` is taken as it is. */
  lemma {:induction false} NumbersAndDeltas(x: real)
    ensures Parse(Number(x)).Ok? <==> x > 0.0
    ensures x > 0.0 ==>
              var parsed := Parse(Number(x)).value;
              parsed.Some? && -0.5 <= 1000000.0 * (parsed.value - 60.0 * x) <= 0.5
    ensures x <= 0.0 ==> Parse(Number(x)) == Err(NotPositive)
    ensures Parse(Delta(x)) == Ok(Some(x)) && Parse(Flag(true)) == Err(NotADuration)
  {
    WholeMicrosIsNearest(60.0 * x);
    hide WholeMicros;
  }

  lemma {:induction false} AllDigitsRead(s: string)
    requires AllDigits(s)
    ensures DigitsLength(s) == |s|
  {
    DigitsEnd(s, |s|);
  }

  lemma DigitsAlone(s: string)
    requires AllDigits(s) && s != ""
    ensures Lower(Trim(s)) == s && DigitsLength(s) == |s| && s[0] < 'a'
  {
    AllDigitsRead(s);
    assert IsDigit(s[0]) && IsDigit(s[|s| - 1]);
    assert !IsSpace(s[0]) && !IsSpace(s[|s| - 1]);
    hide IsSpace, DigitsLength;
    LowerTrimKeeps(s);
  }

  /** A whole number is written without zeros in front. */
  lemma {:induction false} DecimalHasNoZeros(n: nat)
    ensures n > 0 ==> Decimal(n)[0] != '0'
    ensures Decimal(0) == "0"
  {
    if n >= 10 {
      DecimalHasNoZeros(n / 10);
      assert Decimal(n)[0] == Decimal(n / 10)[0];
    }
  }

  // ---- units ----

  /** The seconds of what was given for days, hours, minutes and seconds. */
  function SecondsOf(got: seq<Option<string>>): nat
    requires |got| == 4 && AreAmounts(got)
  {
    24 * 60 * 60 * Amount(got[0]) + 60 * 60 * Amount(got[1]) + 60 * Amount(got[2]) + Amount(got[3])
  }

  /** Text that is neither a word for no expiry nor a bare number is a duration exactly when it fits the expression with
      some amount that is not zero: days, hours, minutes and seconds, in this order, each at most once. */
  lemma {:induction false} TextExactly(text: string, seconds: real)
    requires !IsNever(text) && (text == "" || exists i :: 0 <= i < |text| && !IsDigit(text[i]))
    ensures ParseText(text) == Ok(Some(seconds)) <==>
            seconds > 0.0 && exists got :: |got| == 4 && AreAmounts(got) && Fits(text, "dhms", got)
                                           && seconds == SecondsOf(got) as real
  {
    NeverWords(text);
    DigitsAreDigits(text);
    assert AreUnits(UNITS);
    hide NEVER, IsNever, Fits, IsDigit, AreUnits, SecondsOf, Total;
    forall got ensures Fits(text, UNITS, got) <==> Scan(text, UNITS) == Some(got) {
      ScanDecides(text, UNITS, got);
    }
    hide Scan;
    if Scan(text, UNITS).Some? {
      TotalSays(Scan(text, UNITS).value);
    }
  }

  lemma TotalSays(got: seq<Option<string>>)
    requires |got| == 4 && AreAmounts(got)
    ensures forall seconds :: Total(got) == Ok(Some(seconds)) <==> seconds > 0.0 && seconds == SecondsOf(got) as real
  {
  }

  // ---- printing ----

  function OrNothing(n: nat, unit: string): seq<string> {
    if n == 0 then [] else [Decimal(n) + " " + unit]
  }

  /** From a minute on a duration is printed as its days, hours and minutes, without those that are none. */
  lemma {:induction false} FormatSays(seconds: real) returns (days: nat, hours: nat, minutes: nat)
    requires seconds >= 60.0
    ensures hours < 24 && minutes < 60
    ensures var whole := seconds.Floor; whole - 60 < 86400 * days + 3600 * hours + 60 * minutes <= whole
    ensures Format(Some(seconds)) == Join(OrNothing(days, "d") + OrNothing(hours, "h") + OrNothing(minutes, "min"))
  {
    var total := Truncate(seconds);
    days, hours, minutes := Days(total), Hours(total), Minutes(total);
    MinutesAddUp(total);
    FourParts(days, hours, minutes);
  }

  lemma FourParts(days: nat, hours: nat, minutes: nat)
    ensures Parts(UNITS, [NonZero(days), NonZero(hours), NonZero(minutes), None]) ==
            OrNothing(days, "d") + OrNothing(hours, "h") + OrNothing(minutes, "min")
  {
    hide Decimal, Parts;
    var last: seq<Option<nat>> := [None];
    var two, three := [NonZero(minutes)] + last, [NonZero(hours), NonZero(minutes)] + last;
    assert [NonZero(hours)] + two == three;
    assert [NonZero(days)] + three == [NonZero(days), NonZero(hours), NonZero(minutes), None];
    assert UNITS[1..] == "hms" && "hms"[1..] == "ms" && "ms"[1..] == "s";
    OnePart(UNITS, days, three);
    OnePart("hms", hours, two);
    OnePart("ms", minutes, last);
    NoPart("s");
  }

  lemma OnePart(units: string, n: nat, more: seq<Option<nat>>)
    requires |units| == |more| + 1
    ensures Parts(units, [NonZero(n)] + more) == OrNothing(n, UnitName(units[0])) + Parts(units[1..], more)
  {
    hide Decimal;
    assert ([NonZero(n)] + more)[1..] == more;
  }

  lemma NoPart(units: string)
    requires |units| == 1
    ensures Parts(units, [None]) == []
  {
  }

  /** Below a minute it is printed as seconds. */
  lemma {:induction false} FormatSeconds(seconds: real)
    requires 0.0 <= seconds < 60.0
    ensures Format(Some(seconds)) == Decimal(seconds.Floor) + " s"
  {
  }

  /** Half microseconds go to the even side. */
  lemma {:induction false} NearestEvenExactly(x: real)
    ensures var n := NearestEven(x);
            x - 0.5 <= n as real <= x + 0.5 && (n as real == x - 0.5 || n as real == x + 0.5 ==> n % 2 == 0)
  {
    var below := x.Floor;
    assert below as real <= x < below as real + 1.0;
  }
}
