/** Durations as operators write them: parsing, printing, and what survives both. */
module Durations {
  import opened Wrappers
  import opened Words

  /** What a setting may hold; `Delta` is in seconds, `Number` in minutes. */
  datatype Setting = Missing | Flag(flag: bool) | Delta(seconds: real) | Number(minutes: real) | Text(text: string)

  datatype InvalidDuration = NotADuration | NotPositive

  /** No expiry, or a number of seconds. */
  type Ttl = Option<real>

  const NEVER: set<string> := {"never", "none", "off", "infinite", "indefinite", "forever"}

  ghost predicate AllSpaces(s: string) {
    forall i :: 0 <= i < |s| ==> IsSpace(s[i])
  }

  // ---- the regular expression ----

  /** The units in the order they may come; `m` may also be written `min`. */
  const UNITS: string := "dhms"

  ghost predicate AreUnits(units: string) {
    && (forall i :: 0 <= i < |units| ==> units[i] in UNITS)
    && (forall i, j :: 0 <= i < j < |units| ==> units[i] != units[j])
  }

  predicate Spelled(unit: char, u: string) {
    u == [unit] || (unit == 'm' && u == "min")
  }

  /** The text is spaces, digits, spaces and the unit, and then `rest`. */
  ghost predicate LeadsWith(text: string, a: string, digits: string, b: string, u: string, rest: string) {
    AllSpaces(a) && AllSpaces(b) && text == a + (digits + (b + (u + rest)))
  }

  ghost predicate Leads(text: string, unit: char, digits: string, rest: string) {
    exists a, b, u :: Spelled(unit, u) && LeadsWith(text, a, digits, b, u, rest)
  }

  /** What the regular expression means: each unit, in order, is skipped or gives its digits. */
  ghost predicate Fits(text: string, units: string, got: seq<Option<string>>)
    decreases |units|
  {
    if units == "" then got == [] && AllSpaces(text)
    else
      && |got| == |units|
      && if got[0].None? then Fits(text, units[1..], got[1..])
         else
           && got[0].value != "" && AllDigits(got[0].value)
           && exists rest :: Leads(text, units[0], got[0].value, rest) && Fits(rest, units[1..], got[1..])
  }

  function Trimmed(s: string): string {
    s[SpacesLength(s)..]
  }

  function LeadingDigits(t: string): (digits: string)
    ensures AllDigits(digits)
  {
    DigitsAreDigits(t);
    t[..DigitsLength(t)]
  }

  /** What follows a number and the spaces after it. */
  function AfterNumber(t: string): string {
    Trimmed(t[DigitsLength(t)..])
  }

  function AfterUnit(s: string): string
    requires s != ""
  {
    if "min" <= s then s[3..] else s[1..]
  }

  /** One pass, without going back. */
  function Scan(text: string, units: string): (found: Option<seq<Option<string>>>)
    ensures found.Some? ==> |found.value| == |units| && AreAmounts(found.value)
    decreases |units|
  {
    var t := Trimmed(text);
    if units == "" then
      if t == "" then Some([]) else None
    else
      var n, after := DigitsLength(t), AfterNumber(t);
      if n > 0 && after != "" && after[0] == units[0] then
        Before(Some(LeadingDigits(t)), Scan(AfterUnit(after), units[1..]))
      else
        Before(None, Scan(t, units[1..]))
  }

  function Before(first: Option<string>, more: Option<seq<Option<string>>>): (found: Option<seq<Option<string>>>)
    requires IsAmount(first) && (more.Some? ==> AreAmounts(more.value))
    ensures found.Some? ==> more.Some? && found.value == [first] + more.value && AreAmounts(found.value)
  {
    if more.Some? then Some([first] + more.value) else None
  }

  ghost predicate AreAmounts(got: seq<Option<string>>) {
    forall i :: 0 <= i < |got| ==> IsAmount(got[i])
  }

  ghost predicate IsAmount(got: Option<string>) {
    got.Some? ==> AllDigits(got.value)
  }

  // ---- parsing and printing ----

  function Amount(got: Option<string>): nat
    requires IsAmount(got)
  {
    if got.Some? then Int(got.value) else 0
  }

  /** The nearest whole number; of two that are as near, the even one. */
  function NearestEven(x: real): int {
    var below := x.Floor;
    var rest := x - below as real;
    if rest < 0.5 || (rest == 0.5 && below % 2 == 0) then below else below + 1
  }

  /** The seconds a `timedelta` keeps of a number of seconds: whole microseconds. */
  function WholeMicros(seconds: real): real {
    NearestEven(1000000.0 * seconds) as real / 1000000.0
  }

  function Parse(value: Setting): Result<Ttl, InvalidDuration> {
    match value
    case Missing => Ok(None)
    case Flag(flag) => if flag then Err(NotADuration) else Ok(None)
    case Delta(seconds) => Ok(Some(seconds))
    case Number(minutes) => if minutes <= 0.0 then Err(NotPositive) else Ok(Some(WholeMicros(60.0 * minutes)))
    case Text(text) => ParseText(Lower(Trim(text)))
  }

  function ParseText(text: string): Result<Ttl, InvalidDuration> {
    if text in NEVER then Ok(None)
    else if text != "" && DigitsLength(text) == |text| then
      DigitsAreDigits(text);
      Ok(Some((60 * Int(text)) as real))
    else
      match Scan(text, UNITS)
      case None => Err(NotADuration)
      case Some(got) => Total(got)
  }

  function Total(got: seq<Option<string>>): Result<Ttl, InvalidDuration>
    requires |got| == 4 && AreAmounts(got)
  {
    if got[0].None? && got[1].None? && got[2].None? && got[3].None? then Err(NotADuration)
    else
      var seconds := 86400 * Amount(got[0]) + 3600 * Amount(got[1]) + 60 * Amount(got[2]) + Amount(got[3]);
      if seconds <= 0 then Err(NotPositive) else Ok(Some(seconds as real))
  }

  function Truncate(x: real): int {
    if x >= 0.0 then x.Floor else -(-x).Floor
  }

  function Signed(n: int): string {
    if n < 0 then "-" + Decimal(-n) else Decimal(n)
  }

  function Format(value: Ttl): string {
    match value
    case None => "never"
    case Some(seconds) =>
      var total := Truncate(seconds);
      if total < 60 then Signed(total) + " s"
      else
        Join(Parts(UNITS, [NonZero(Days(total)), NonZero(Hours(total)), NonZero(Minutes(total)), None]))
  }

  function Days(total: nat): nat { total / 86400 }
  function Hours(total: nat): nat { total % 86400 / 3600 }
  function Minutes(total: nat): nat { total % 86400 % 3600 / 60 }

  function NonZero(n: nat): Option<nat> {
    if n == 0 then None else Some(n)
  }

  function UnitName(unit: char): string {
    if unit == 'm' then "min" else [unit]
  }

  /** The parts that are not zero, in the order of the units. */
  function Parts(units: string, amounts: seq<Option<nat>>): seq<string>
    requires |units| == |amounts|
  {
    if units == "" then []
    else
      var part := if amounts[0].Some? then [Decimal(amounts[0].value) + " " + UnitName(units[0])] else [];
      part + Parts(units[1..], amounts[1..])
  }

  // ---- the scan decides the regular expression ----

  lemma TrimmedStarts(s: string)
    ensures AllSpaces(s[..SpacesLength(s)]) && s == s[..SpacesLength(s)] + Trimmed(s)
    ensures Trimmed(s) == "" || !IsSpace(Trimmed(s)[0])
  {
    SpacesAreSpaces(s);
  }

  lemma SpacesThen(front: string, body: string)
    requires AllSpaces(front) && body != "" && !IsSpace(body[0])
    ensures SpacesLength(front + body) == |front| && Trimmed(front + body) == body
  {
    SpacesEnd(front + body, |front|);
  }

  lemma DigitsThen(digits: string, tail: string)
    requires AllDigits(digits) && tail != "" && !IsDigit(tail[0])
    ensures DigitsLength(digits + tail) == |digits|
    ensures (digits + tail)[..|digits|] == digits && AfterNumber(digits + tail) == Trimmed(tail)
  {
    DigitsEnd(digits + tail, |digits|);
    assert (digits + tail)[|digits|..] == tail;
  }

  /** A number and a unit at the start can be read in one way, up to the spelling of the unit. */
  lemma LeadsIs(t: string, unit: char, digits: string, rest: string) returns (u: string)
    requires t == "" || !IsSpace(t[0])
    requires digits != "" && AllDigits(digits) && unit in UNITS
    requires Leads(t, unit, digits, rest)
    ensures DigitsLength(t) > 0 && digits == t[..DigitsLength(t)]
    ensures Spelled(unit, u) && AfterNumber(t) == u + rest
  {
    var a, b, u' :| Spelled(unit, u') && LeadsWith(t, a, digits, b, u', rest);
    u := u';
    assert !IsSpace(digits[0]) && !IsSpace(u[0]) && !IsDigit(u[0]);
    assert b != "" ==> !IsDigit(b[0]);
    hide IsSpace, IsDigit, AfterNumber, Trimmed;
    SpacesThen(a, digits + (b + (u + rest)));
    SpacesEnd(t, 0);
    assert t == digits + (b + (u + rest));
    DigitsThen(digits, b + (u + rest));
    SpacesThen(b, u + rest);
  }

  lemma LeadsFrom(t: string, unit: char)
    requires DigitsLength(t) > 0 && AfterNumber(t) != "" && AfterNumber(t)[0] == unit && unit in UNITS
    ensures Leads(t, unit, t[..DigitsLength(t)], AfterUnit(AfterNumber(t)))
    ensures AllDigits(t[..DigitsLength(t)])
  {
    hide IsSpace, IsDigit, AfterUnit, UnitAt, Trimmed, DigitsLength, SpacesLength, Spelled;
    DigitsAreDigits(t);
    var n, after := DigitsLength(t), AfterNumber(t);
    var b := t[n..][..SpacesLength(t[n..])];
    TrimmedStarts(t[n..]);
    var u := UnitAt(after);
    assert t == "" + (t[..n] + (b + (u + AfterUnit(after)))) by {
      assert t == t[..n] + t[n..];
    }
    assert LeadsWith(t, "", t[..n], b, u, AfterUnit(after));
  }

  function UnitAt(after: string): (u: string)
    requires after != ""
    ensures Spelled(after[0], u) && after == u + AfterUnit(after)
  {
    if "min" <= after then "min" else [after[0]]
  }

  /** Spaces in front make no difference. */
  lemma {:induction false} FitsTrimmed(text: string, units: string, got: seq<Option<string>>)
    requires AreUnits(units)
    ensures Fits(text, units, got) <==> Fits(Trimmed(text), units, got)
    decreases |units|
  {
    TrimmedStarts(text);
    var t, front := Trimmed(text), text[..SpacesLength(text)];
    if units == "" {
      assert t != "" ==> text[|front|] == t[0];
    } else if |got| == |units| {
      FitsTrimmed(text, units[1..], got[1..]);
      if got[0].Some? && got[0].value != "" && AllDigits(got[0].value) {
        forall rest ensures Leads(text, units[0], got[0].value, rest) <==> Leads(t, units[0], got[0].value, rest) {
          LeadsTrimmed(text, units[0], got[0].value, rest);
        }
      }
    }
  }

  lemma LeadsTrimmed(text: string, unit: char, digits: string, rest: string)
    requires digits != "" && AllDigits(digits)
    ensures Leads(text, unit, digits, rest) <==> Leads(Trimmed(text), unit, digits, rest)
  {
    hide LeadsWith, Spelled, IsDigit, IsSpace, Trimmed;
    if a, b, u :| Spelled(unit, u) && LeadsWith(text, a, digits, b, u, rest) {
      WithoutFront(text, a, digits, b, u, rest);
    }
    if a, b, u :| Spelled(unit, u) && LeadsWith(Trimmed(text), a, digits, b, u, rest) {
      WithFront(text, a, digits, b, u, rest);
    }
  }

  lemma WithoutFront(text: string, a: string, digits: string, b: string, u: string, rest: string)
    requires LeadsWith(text, a, digits, b, u, rest) && digits != "" && AllDigits(digits)
    ensures LeadsWith(Trimmed(text), "", digits, b, u, rest)
  {
    var tail := digits + (b + (u + rest));
    assert tail[0] == digits[0] && !IsSpace(digits[0]);
    hide IsSpace, IsDigit, Trimmed;
    SpacesThen(a, tail);
    assert tail == "" + tail;
  }

  lemma WithFront(text: string, a: string, digits: string, b: string, u: string, rest: string)
    requires LeadsWith(Trimmed(text), a, digits, b, u, rest)
    ensures LeadsWith(text, text[..SpacesLength(text)] + a, digits, b, u, rest)
  {
    hide IsSpace, IsDigit, Trimmed;
    TrimmedStarts(text);
    FrontAppends(text[..SpacesLength(text)], a, digits + (b + (u + rest)));
  }

  lemma FrontAppends(front: string, a: string, tail: string)
    requires AllSpaces(front) && AllSpaces(a)
    ensures front + (a + tail) == (front + a) + tail && AllSpaces(front + a)
  {
    hide IsSpace;
  }

  /** What fits is nothing, or starts with a number and one of the units. */
  lemma {:induction false} FitsStarts(text: string, units: string, got: seq<Option<string>>)
    requires AreUnits(units) && Fits(text, units, got)
    ensures var t := Trimmed(text);
            t == "" || (DigitsLength(t) > 0 && AfterNumber(t) != "" && AfterNumber(t)[0] in units)
    decreases |units|
  {
    TrimmedStarts(text);
    var t := Trimmed(text);
    if units == "" {
    } else if got[0].None? {
      FitsStarts(text, units[1..], got[1..]);
    } else {
      FitsTrimmed(text, units, got);
      var rest := FitsFirst(t, units, got);
      var u := LeadsIs(t, units[0], got[0].value, rest);
    }
  }

  /** A number with the unit that comes first is read as such. */
  lemma FitsReads(t: string, units: string, got: seq<Option<string>>)
    requires AreUnits(units) && units != "" && (t == "" || !IsSpace(t[0]))
    requires DigitsLength(t) > 0 && AfterNumber(t) != "" && AfterNumber(t)[0] == units[0]
    requires Fits(t, units, got)
    ensures got[0] == Some(LeadingDigits(t)) && Fits(AfterUnit(AfterNumber(t)), units[1..], got[1..])
  {
    assert Trimmed(t) == t;
    UnitsRest(units);
    FitsGives(t, units, got);
    assert units[0] in UNITS;
    hide IsSpace, IsDigit, AfterNumber, Trimmed, Leads, Fits, AreUnits, AfterUnit, Spelled, DigitsLength, UNITS;
    NotSkipped(t, units, got);
    var rest := FitsFirst(t, units, got);
    var u := LeadsIs(t, units[0], got[0].value, rest);
    AfterUnitIs(AfterNumber(t), u, rest, units[1..], got[1..]);
  }

  lemma UnitsRest(units: string)
    requires AreUnits(units) && units != ""
    ensures AreUnits(units[1..])
  {
  }

  lemma FitsGives(t: string, units: string, got: seq<Option<string>>)
    requires Fits(t, units, got)
    ensures |got| == |units|
  {
    hide Leads, IsDigit, IsSpace;
  }

  lemma FitsFirst(t: string, units: string, got: seq<Option<string>>) returns (rest: string)
    requires units != "" && Fits(t, units, got) && got[0].Some?
    ensures got[0].value != "" && AllDigits(got[0].value)
    ensures Leads(t, units[0], got[0].value, rest) && Fits(rest, units[1..], got[1..])
  {
    hide Leads, IsDigit;
    rest :| Leads(t, units[0], got[0].value, rest) && Fits(rest, units[1..], got[1..]);
  }

  lemma ReadsFits(t: string, units: string, got: seq<Option<string>>)
    requires AreUnits(units) && units != "" && |got| == |units|
    requires DigitsLength(t) > 0 && AfterNumber(t) != "" && AfterNumber(t)[0] == units[0]
    requires got[0] == Some(LeadingDigits(t)) && Fits(AfterUnit(AfterNumber(t)), units[1..], got[1..])
    ensures Fits(t, units, got)
  {
    hide IsSpace, IsDigit, AfterNumber, Leads;
    LeadsFrom(t, units[0]);
  }

  lemma NotSkipped(t: string, units: string, got: seq<Option<string>>)
    requires AreUnits(units) && units != "" && Trimmed(t) == t && Fits(t, units, got)
    requires DigitsLength(t) > 0 && AfterNumber(t) != "" && AfterNumber(t)[0] == units[0]
    ensures got[0].Some?
  {
    hide IsSpace, IsDigit, AfterNumber, Trimmed, Leads;
    if got[0].None? {
      FitsStarts(t, units[1..], got[1..]);
      assert false;
    }
  }

  /** `m` is not read when `min` is there, as nothing fits that starts with `in`. */
  lemma AfterUnitIs(after: string, u: string, rest: string, units: string, got: seq<Option<string>>)
    requires AreUnits(units) && Fits(rest, units, got)
    requires after == u + rest && after != "" && Spelled(after[0], u)
    ensures rest == AfterUnit(after)
  {
    if "min" <= after && u == "m" {
      assert rest[0] == after[1] == 'i';
      SpacesEnd(rest, 0);
      FitsStarts(rest, units, got);
      assert false;
    }
  }

  /** Anything else leaves the unit that comes first out. */
  lemma FitsSkips(t: string, units: string, got: seq<Option<string>>)
    requires AreUnits(units) && units != "" && (t == "" || !IsSpace(t[0]))
    requires !(DigitsLength(t) > 0 && AfterNumber(t) != "" && AfterNumber(t)[0] == units[0])
    ensures Fits(t, units, got) <==> |got| == |units| && got[0] == None && Fits(t, units[1..], got[1..])
  {
    hide IsSpace, IsDigit, AfterNumber, Trimmed, Leads;
    if Fits(t, units, got) && got[0].Some? {
      var rest := FitsFirst(t, units, got);
      var u := LeadsIs(t, units[0], got[0].value, rest);
      assert false;
    }
  }

  /** One pass finds just what the regular expression, which may go back, would find. */
  lemma {:induction false} ScanDecides(text: string, units: string, got: seq<Option<string>>)
    requires AreUnits(units)
    ensures Fits(text, units, got) <==> Scan(text, units) == Some(got)
    decreases |units|
  {
    TrimmedStarts(text);
    FitsTrimmed(text, units, got);
    var t := Trimmed(text);
    if units != "" && |got| == |units| {
      hide IsSpace, IsDigit, Fits, Trimmed;
      assert got == [got[0]] + got[1..];
      if DigitsLength(t) > 0 && AfterNumber(t) != "" && AfterNumber(t)[0] == units[0] {
        if Fits(t, units, got) {
          FitsReads(t, units, got);
        }
        if got[0] == Some(LeadingDigits(t)) && Fits(AfterUnit(AfterNumber(t)), units[1..], got[1..]) {
          ReadsFits(t, units, got);
        }
        ScanDecides(AfterUnit(AfterNumber(t)), units[1..], got[1..]);
      } else {
        FitsSkips(t, units, got);
        ScanDecides(t, units[1..], got[1..]);
      }
    }
  }

  // ---- what is printed is parsed ----

  function Written(amounts: seq<Option<nat>>): (got: seq<Option<string>>)
    ensures |got| == |amounts|
  {
    seq(|amounts|, i requires 0 <= i < |amounts| => if amounts[i].Some? then Some(Decimal(amounts[i].value)) else None)
  }

  /** Parts fit the regular expression with the amounts they were written from. */
  lemma {:induction false} PartsFit(units: string, amounts: seq<Option<nat>>, front: string)
    requires AreUnits(units) && |units| == |amounts| && AllSpaces(front)
    ensures Fits(front + Join(Parts(units, amounts)), units, Written(amounts))
    decreases |units|
  {
    if units == "" {
      assert front + "" == front;
    } else {
      var rest := Parts(units[1..], amounts[1..]);
      assert Written(amounts)[1..] == Written(amounts[1..]);
      hide IsSpace, IsDigit, Leads, Decimal, Fits, AllSpaces;
      if amounts[0].None? {
        assert Parts(units, amounts) == rest;
        PartsFit(units[1..], amounts[1..], front);
        FitsAfter(front + Join(rest), units, Written(amounts), "");
      } else {
        var gap := if rest == [] then "" else " ";
        assert AllSpaces(gap) && AllSpaces(" ");
        PartsFit(units[1..], amounts[1..], gap);
        PartLeads(front, units[0], amounts[0].value, rest);
        FitsAfter(front + Join(Parts(units, amounts)), units, Written(amounts), gap + Join(rest));
      }
    }
  }

  lemma FitsAfter(text: string, units: string, got: seq<Option<string>>, rest: string)
    requires units != "" && |got| == |units|
    requires got[0].None? ==> Fits(text, units[1..], got[1..])
    requires got[0].Some? ==> got[0].value != "" && AllDigits(got[0].value)
    requires got[0].Some? ==> Leads(text, units[0], got[0].value, rest) && Fits(rest, units[1..], got[1..])
    ensures Fits(text, units, got)
  {
    hide Leads, IsDigit;
  }

  lemma PartLeads(front: string, unit: char, n: nat, rest: seq<string>)
    requires AllSpaces(front)
    ensures var gap := if rest == [] then "" else " ";
            Leads(front + Join([Decimal(n) + " " + UnitName(unit)] + rest), unit, Decimal(n), gap + Join(rest))
  {
    var u, more := UnitName(unit), (if rest == [] then "" else " ") + Join(rest);
    var parts := [Decimal(n) + " " + u] + rest;
    assert parts[0] == Decimal(n) + " " + u && parts[1..] == rest;
    hide IsSpace, Decimal, UnitName;
    assert Join(parts) == Decimal(n) + (" " + (u + more));
    assert AllSpaces(" ") && Spelled(unit, u);
    assert LeadsWith(front + Join(parts), front, Decimal(n), " ", u, more);
  }

  /** A digit first, a small letter last, and no capitals. */
  predicate Plain(s: string) {
    s != "" && IsDigit(s[0]) && 'a' <= s[|s| - 1] <= 'z' && forall i :: 0 <= i < |s| ==> !('A' <= s[i] <= 'Z')
  }

  lemma NeverIsWord(s: string)
    ensures s in NEVER ==> s != "" && 'a' <= s[0] <= 'z'
  {
  }

  lemma PlainIsKept(s: string)
    requires Plain(s)
    ensures Lower(Trim(s)) == s && s !in NEVER && DigitsLength(s) != |s|
  {
    assert !IsSpace(s[0]) && !IsSpace(s[|s| - 1]) && !IsDigit(s[|s| - 1]) && s[0] < 'a';
    hide NEVER, IsSpace, IsDigit, Lower, Trim, DigitsLength;
    NeverIsWord(s);
    DigitsStop(s);
    LowerTrimKeeps(s);
  }

  lemma DigitsStop(s: string)
    requires s != "" && !IsDigit(s[|s| - 1])
    ensures DigitsLength(s) != |s|
  {
    hide IsDigit;
    DigitsAreDigits(s);
  }

  lemma LowerTrimKeeps(s: string)
    requires s != "" && !IsSpace(s[0]) && !IsSpace(s[|s| - 1])
    requires forall i :: 0 <= i < |s| ==> !('A' <= s[i] <= 'Z')
    ensures Lower(Trim(s)) == s
  {
    hide IsSpace;
    assert Trim(s) == s;
    assert forall i :: 0 <= i < |s| ==> Lower(s)[i] == s[i];
  }

  ghost predicate AllPlain(parts: seq<string>) {
    forall i :: 0 <= i < |parts| ==> Plain(parts[i])
  }

  lemma {:induction false} JoinIsPlain(parts: seq<string>)
    requires parts != [] && AllPlain(parts)
    ensures Plain(Join(parts))
  {
    if |parts| > 1 {
      JoinIsPlain(parts[1..]);
      var rest := Join(parts[1..]);
      assert Join(parts) == parts[0] + " " + rest;
      assert Join(parts)[|Join(parts)| - 1] == rest[|rest| - 1];
    }
  }

  lemma {:induction false} PartsArePlain(units: string, amounts: seq<Option<nat>>)
    requires AreUnits(units) && |units| == |amounts|
    ensures AllPlain(Parts(units, amounts))
  {
    if units != "" {
      UnitsRest(units);
      PartsArePlain(units[1..], amounts[1..]);
      if amounts[0].Some? {
        PartIsPlain(amounts[0].value, units[0]);
      }
      hide Plain, Decimal, UnitName, AreUnits;
    }
  }

  lemma {:induction false} SomeParts(units: string, amounts: seq<Option<nat>>, i: nat)
    requires |units| == |amounts| && i < |amounts| && amounts[i].Some?
    ensures Parts(units, amounts) != []
  {
    hide Decimal, UnitName;
    if i > 0 {
      SomeParts(units[1..], amounts[1..], i - 1);
    }
  }

  lemma PartIsPlain(n: nat, unit: char)
    requires unit in UNITS
    ensures Plain(Decimal(n) + " " + UnitName(unit))
  {
    hide Decimal;
    var digits, u := Decimal(n), UnitName(unit);
    var s := digits + " " + u;
    assert s[|s| - 1] == u[|u| - 1];
    assert s[0] == digits[0];
  }

  function InSeconds(amounts: seq<Option<nat>>): nat
    requires |amounts| == 4
  {
    86400 * Value(amounts[0]) + 3600 * Value(amounts[1]) + 60 * Value(amounts[2]) + Value(amounts[3])
  }

  /** Amounts of days, hours, minutes and seconds, written out and parsed. */
  lemma ParsedAmounts(amounts: seq<Option<nat>>)
    requires |amounts| == 4 && (amounts[0].Some? || amounts[1].Some? || amounts[2].Some? || amounts[3].Some?)
    ensures var seconds := InSeconds(amounts);
            Parse(Text(Join(Parts(UNITS, amounts)))) ==
            if seconds <= 0 then Err(NotPositive) else Ok(Some(seconds as real))
  {
    hide Scan, Parts, Join, NEVER, Written, Lower, Trim, Total, AreAmounts;
    PartsAreRead(amounts);
    TotalWritten(amounts);
  }

  lemma TotalWritten(amounts: seq<Option<nat>>)
    requires |amounts| == 4 && (amounts[0].Some? || amounts[1].Some? || amounts[2].Some? || amounts[3].Some?)
    ensures AreAmounts(Written(amounts))
    ensures var seconds := InSeconds(amounts);
            Total(Written(amounts)) == if seconds <= 0 then Err(NotPositive) else Ok(Some(seconds as real))
  {
    AmountsWritten(amounts);
    hide Amount, Decimal;
  }

  lemma PartsAreRead(amounts: seq<Option<nat>>)
    requires |amounts| == 4 && (amounts[0].Some? || amounts[1].Some? || amounts[2].Some? || amounts[3].Some?)
    ensures var text := Join(Parts(UNITS, amounts));
            && Lower(Trim(text)) == text && text !in NEVER && DigitsLength(text) != |text|
            && Scan(text, UNITS) == Some(Written(amounts))
  {
    var text := Join(Parts(UNITS, amounts));
    assert AreUnits(UNITS);
    hide Scan, Fits, Plain, IsDigit, IsSpace, Parts, Join, Decimal, NEVER, Written, Lower, Trim, AreUnits;
    PartsArePlain(UNITS, amounts);
    var i := if amounts[0].Some? then 0 else if amounts[1].Some? then 1 else if amounts[2].Some? then 2 else 3;
    SomeParts(UNITS, amounts, i);
    JoinIsPlain(Parts(UNITS, amounts));
    PlainIsKept(text);
    PartsFit(UNITS, amounts, "");
    assert "" + text == text;
    ScanDecides(text, UNITS, Written(amounts));
  }

  function Value(amount: Option<nat>): nat {
    if amount.Some? then amount.value else 0
  }

  lemma AmountsWritten(amounts: seq<Option<nat>>)
    ensures forall i :: 0 <= i < |amounts| ==>
              IsAmount(Written(amounts)[i]) && Amount(Written(amounts)[i]) == Value(amounts[i])
  {
    forall i | 0 <= i < |amounts| && amounts[i].Some? ensures Amount(Written(amounts)[i]) == Value(amounts[i]) {
      IntOfDecimal(amounts[i].value);
    }
  }

  /** A positive duration comes back whole, or rounded down to the minute from a minute on; nothing else
      that is printed as a number is parsed. */
  lemma {:induction false} RoundTrip(seconds: real)
    ensures var total := Truncate(seconds);
            Parse(Text(Format(Some(seconds)))) ==
            if total < 0 then Err(NotADuration)
            else if total == 0 then Err(NotPositive)
            else if total < 60 then Ok(Some(total as real))
            else Ok(Some((total - total % 60) as real))
  {
    hide Parse, Parts, Join, Decimal;
    var total := Truncate(seconds);
    if total < 0 {
      NegativeIsRefused(-total);
    } else if total < 60 {
      SecondsParsed(total);
    } else {
      MinutesParsed(seconds);
    }
  }

  lemma SecondsParsed(n: nat)
    ensures Parse(Text(Decimal(n) + " s")) == if n == 0 then Err(NotPositive) else Ok(Some(n as real))
  {
    hide Parse, Parts, Join, Decimal;
    var amounts := [None, None, None, Some(n)];
    ParsedAmounts(amounts);
    SecondsOnly(n);
  }

  lemma MinutesParsed(seconds: real)
    requires Truncate(seconds) >= 60
    ensures var total := Truncate(seconds); Parse(Text(Format(Some(seconds)))) == Ok(Some((total - total % 60) as real))
  {
    hide Parse, Parts, Join, Truncate;
    var total := Truncate(seconds);
    var amounts := [NonZero(Days(total)), NonZero(Hours(total)), NonZero(Minutes(total)), None];
    MinutesAddUp(total);
    ParsedAmounts(amounts);
    hide Days, Hours, Minutes;
    assert Value(amounts[0]) == Days(total) && Value(amounts[1]) == Hours(total) && Value(amounts[2]) == Minutes(total);
  }

  lemma MinutesAddUp(total: nat)
    ensures 86400 * Days(total) + 3600 * Hours(total) + 60 * Minutes(total) == total - total % 60
    ensures Hours(total) < 24 && Minutes(total) < 60
  {
    var left := total % 86400 % 3600;
    var minutes := 1440 * Days(total) + 60 * Hours(total) + Minutes(total);
    assert total == 60 * minutes + left % 60;
    Sixtieth(total, minutes, left % 60);
  }

  lemma Sixtieth(total: nat, minutes: nat, left: nat)
    requires left < 60 && total == 60 * minutes + left
    ensures total % 60 == left
  {
  }

  lemma SecondsOnly(n: nat)
    ensures Join(Parts(UNITS, [None, None, None, Some(n)])) == Decimal(n) + " s"
  {
    hide Decimal;
    var amounts := [None, None, None, Some(n)];
    var part := Decimal(n) + " " + UnitName('s');
    LastPart(UNITS[3..], amounts[3..], n);
    assert Parts(UNITS[2..], amounts[2..]) == [] + Parts(UNITS[2..][1..], amounts[2..][1..]);
    assert Parts(UNITS[1..], amounts[1..]) == [] + Parts(UNITS[1..][1..], amounts[1..][1..]);
    assert Parts(UNITS, amounts) == [] + Parts(UNITS[1..], amounts[1..]);
  }

  lemma LastPart(units: string, amounts: seq<Option<nat>>, n: nat)
    requires units == "s" && amounts == [Some(n)]
    ensures Parts(units, amounts) == [Decimal(n) + " s"]
  {
    hide Decimal;
    assert Parts(units[1..], amounts[1..]) == [];
    assert Decimal(n) + " " + UnitName(units[0]) == Decimal(n) + " s";
  }

  /** Text that starts neither with a space nor with a digit gives no unit its amount. */
  lemma {:induction false} ScanNothing(text: string, units: string)
    requires text != "" && Trimmed(text) == text && DigitsLength(text) == 0
    ensures Scan(text, units) == None
    decreases |units|
  {
    if units != "" {
      ScanNothing(text, units[1..]);
    }
  }

  lemma NegativeIsRefused(n: nat)
    requires n > 0
    ensures Parse(Text("-" + Decimal(n) + " s")) == Err(NotADuration)
  {
    var text := "-" + Decimal(n) + " s";
    hide Decimal, Scan, NEVER, Lower, Trim, Trimmed, DigitsLength;
    assert text[0] == '-' && text[|text| - 1] == 's';
    LowerTrimKeeps(text);
    NoneIsNegative(text);
    ScanNothing(text, UNITS);
  }

  lemma NoneIsNegative(text: string)
    requires text != "" && text[0] == '-'
    ensures text !in NEVER && DigitsLength(text) == 0 && Trimmed(text) == text
  {
    NeverIsWord(text);
    hide NEVER;
  }

  /** No expiry is printed and parsed as no expiry, and nothing else is. */
  lemma NeverIsNever(value: Ttl)
    ensures Parse(Text(Format(value))) == Ok(None) <==> value == None
  {
    if value.Some? {
      RoundTrip(value.value);
    } else {
      assert Trim("never") == "never";
      assert Lower("never") == "never";
    }
  }

  /** Printing what was parsed from a print changes nothing more. */
  lemma FormatIsStable(seconds: real)
    requires seconds >= 1.0
    ensures var text := Format(Some(seconds)); Parse(Text(text)).Ok? && Format(Parse(Text(text)).value) == text
  {
    hide Parse, Parts, Join, Decimal;
    RoundTrip(seconds);
    var total := Truncate(seconds);
    if total >= 60 {
      var kept := total - total % 60;
      assert Truncate(kept as real) == kept;
      SameMinutes(total);
      hide Days, Hours, Minutes, Parts, Join;
    }
  }

  lemma SameMinutes(total: nat)
    ensures var kept := total - total % 60;
            Days(kept) == Days(total) && Hours(kept) == Hours(total) && Minutes(kept) == Minutes(total)
  {
    MinutesAddUp(total);
    SumGives(Days(total), Hours(total), Minutes(total));
  }

  lemma SumGives(days: nat, hours: nat, minutes: nat)
    requires hours < 24 && minutes < 60
    ensures var total := 86400 * days + 3600 * hours + 60 * minutes;
            Days(total) == days && Hours(total) == hours && Minutes(total) == minutes
  {
    var total := 86400 * days + 3600 * hours + 60 * minutes;
    assert total / 86400 == days && total % 86400 == 3600 * hours + 60 * minutes;
    assert (3600 * hours + 60 * minutes) / 3600 == hours && (3600 * hours + 60 * minutes) % 3600 == 60 * minutes;
  }

  // ---- what is accepted without being positive ----

  /** Digits alone, which are minutes, amounting to none. */
  predicate IsZeroMinutes(text: string) {
    text !in NEVER && text != "" && DigitsLength(text) == |text| && forall i :: 0 <= i < |text| ==> text[i] == '0'
  }

  lemma {:induction false} ZerosAreZero(digits: string)
    requires AllDigits(digits)
    ensures Int(digits) == 0 <==> forall i :: 0 <= i < |digits| ==> digits[i] == '0'
  {
    if digits != "" {
      var n := |digits| - 1;
      ZerosAreZero(digits[..n]);
      assert forall i :: 0 <= i < n ==> digits[..n][i] == digits[i];
    }
  }

  /** The number of minutes is no more than half a microsecond, which a `timedelta` rounds to nothing. */
  predicate IsUnderHalfMicro(minutes: real) {
    120000000.0 * minutes <= 1.0
  }

  /** A duration that is accepted is positive, except for a `timedelta`, which is taken as it is; for zeros
      alone, which are minutes that nothing checks; and for minutes checked before they round to nothing. */
  lemma {:induction false} PositiveExactly(value: Setting)
    requires Parse(value).Ok? && Parse(value).value.Some?
    ensures Parse(value).value.value > 0.0 <==>
            && !(value.Delta? && value.seconds <= 0.0)
            && !(value.Number? && IsUnderHalfMicro(value.minutes))
            && !(value.Text? && IsZeroMinutes(Lower(Trim(value.text))))
  {
    if value.Text? {
      TextPositiveExactly(Lower(Trim(value.text)));
    } else if value.Number? {
      RoundsToNothing(60000000.0 * value.minutes);
    }
  }

  lemma RoundsToNothing(x: real)
    requires x > 0.0
    ensures NearestEven(x) >= 0 && (NearestEven(x) == 0 <==> x <= 0.5)
  {
  }

  /** Rounding to whole microseconds moves a duration by at most half of one, and not if it is whole. */
  lemma {:induction false} WholeMicrosIsNearest(seconds: real)
    ensures -0.5 <= 1000000.0 * (WholeMicros(seconds) - seconds) <= 0.5
    ensures WholeMicros(WholeMicros(seconds)) == WholeMicros(seconds)
  {
    var n := NearestEven(1000000.0 * seconds);
    assert 1000000.0 * WholeMicros(seconds) == n as real;
    assert NearestEven(n as real) == n;
  }

  /** A billionth of a minute is accepted, and is a duration of nothing. */
  lemma {:induction false} TinyNumberIsAccepted()
    ensures Parse(Number(0.000000001)) == Ok(Some(0.0))
  {
    RoundsToNothing(1000000.0 * (60.0 * 0.000000001));
  }

  lemma TextPositiveExactly(text: string)
    requires ParseText(text).Ok? && ParseText(text).value.Some?
    ensures ParseText(text).value.value > 0.0 <==> !IsZeroMinutes(text)
  {
    hide NEVER;
    if text != "" && DigitsLength(text) == |text| {
      DigitsAreDigits(text);
      ZerosAreZero(text);
    }
  }

  /** `"0"` is a duration of no seconds, though a zero written with a unit is refused. */
  lemma {:induction false} ZeroIsAccepted()
    ensures Parse(Text("0")) == Ok(Some(0.0))
    ensures Parse(Text("0 s")) == Err(NotPositive)
  {
    assert Trim("0") == "0" && Lower("0") == "0";
    NeverIsWord("0");
    assert DigitsLength("0") == 1;
    assert Int("0") == 0 by {
      ZerosAreZero("0");
    }
    hide NEVER;
    SecondsParsed(0);
    assert Decimal(0) + " s" == "0 s";
  }
}
