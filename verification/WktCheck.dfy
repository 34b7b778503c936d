/** The geometry check: what stops a cell being read as the geometry of a column. */
module WktCheck {
  import opened Wrappers
  import opened Words
  import opened WktTokens
  import opened WktParser

  datatype Failure =
    | NotTokens | NoKind | UnknownKind | BadList(problem: Problem) | Trailing | WrongNesting | PointCount

  datatype Complaint =
    | LooksLikePair | LooksLikeDegrees | NotWkt(failure: Failure) | PointGiven | WrongKind | EmptyGeometry
    | ShortRing | OpenRing | ShortLine | OutOfRange

  /** The two patterns tried before parsing, and the conversion of number tokens: library behaviour. */
  datatype Library = Library(looksLikePair: string -> bool, looksLikeDegrees: string -> bool, float: Float)

  function UpperChar(c: char): char {
    if 'a' <= c <= 'z' then (c as int - 'a' as int + 'A' as int) as char else c
  }

  function Upper(s: string): string {
    if s == "" then "" else [UpperChar(s[0])] + Upper(s[1..])
  }

  /** How deeply each kind nests its coordinate lists; no depth for anything that is not a kind. */
  function Depths(kind: string): set<nat> {
    if kind == "POINT" || kind == "LINESTRING" then {1}
    else if kind == "MULTIPOINT" then {1, 2}
    else if kind == "POLYGON" || kind == "MULTILINESTRING" then {2}
    else if kind == "MULTIPOLYGON" then {3}
    else {}
  }

  predicate IsAccepted(kind: string) {
    kind == "POLYGON" || kind == "MULTIPOLYGON" || kind == "LINESTRING" || kind == "MULTILINESTRING"
  }

  predicate IsTag(t: string) {
    Upper(t) == "Z" || Upper(t) == "M" || Upper(t) == "ZM"
  }

  /** The tokens after the kind and its dimension tag. */
  function Body(ts: seq<string>): seq<string>
    requires ts != []
  {
    if |ts| > 1 && IsTag(ts[1]) then ts[2..] else ts[1..]
  }

  /** A kind and its coordinates; no coordinates for an empty geometry. */
  function ParseTokens(ts: seq<string>, float: Float): Result<(string, Option<Geo>), Failure> {
    if ts == [] || !IsLetters(ts[0]) then Err(NoKind)
    else if Depths(Upper(ts[0])) == {} then Err(UnknownKind)
    else
      var kind, body := Upper(ts[0]), Body(ts);
      if |body| == 1 && Upper(body[0]) == "EMPTY" then Ok((kind, None))
      else
        match ParseList(body, float)
        case Err(p) => Err(BadList(p))
        case Ok((g, depth, rest)) =>
          if rest != [] then Err(Trailing)
          else if depth !in Depths(kind) then Err(WrongNesting)
          else if kind == "POINT" && |Items(g)| != 1 then Err(PointCount)
          else Ok((kind, Some(g)))
  }

  function Items(g: Geo): seq<Geo> {
    if g.Nested? then g.items else []
  }

  method Parse(text: string, float: Float) returns (r: Result<(string, Option<Geo>), Failure>)
    ensures r == match Tokens(Trim(text)) case None => Err(NotTokens) case Some(ts) => ParseTokens(ts, float)
  {
    hide Tokens, IsLetters, Depths, Upper, ParseList;
    var read := Tokenize(Trim(text));
    if read.None? {
      return Err(NotTokens);
    }
    if read.value == [] || !IsLetters(read.value[0]) {
      return Err(NoKind);
    }
    var list := new TokenList(read.value);
    var kind := list.Pop();
    kind := Upper(kind);
    if Depths(kind) == {} {
      return Err(UnknownKind);
    }
    if list.tokens != [] && IsTag(list.tokens[0]) {
      var tag := list.Pop();
    }
    assert list.tokens == Body(read.value);
    if list.tokens != [] && Upper(list.tokens[0]) == "EMPTY" && |list.tokens| == 1 {
      return Ok((kind, None));
    }
    var parsed := list.List(float);
    if parsed.Err? {
      return Err(BadList(parsed.error));
    }
    var (coords, depth) := parsed.value;
    if list.tokens != [] {
      return Err(Trailing);
    }
    if depth !in Depths(kind) {
      return Err(WrongNesting);
    }
    if kind == "POINT" && |Items(coords)| != 1 {
      return Err(PointCount);
    }
    return Ok((kind, Some(coords)));
  }

  // ---- the geometric checks ----

  function Magnitude(n: Num, limit: real): bool {
    match n
    case Finite(r) => r > limit || r < -limit
    case PosInf => true
    case NegInf => true
    case NaN => false
  }

  /** `==` on floats: `nan` equals nothing. */
  predicate SameNumber(a: Num, b: Num) {
    a == b && !a.NaN?
  }

  function X(p: Geo, float: Float): Num
    requires ValidPoint(p, float)
  {
    float(p.numbers[0]).value
  }

  function Y(p: Geo, float: Float): Num
    requires ValidPoint(p, float)
  {
    float(p.numbers[1]).value
  }

  predicate Outside(p: Geo, float: Float)
    requires ValidPoint(p, float)
  {
    Magnitude(X(p, float), 180.0) || Magnitude(Y(p, float), 90.0)
  }

  predicate SamePlace(a: Geo, b: Geo, float: Float)
    requires ValidPoint(a, float) && ValidPoint(b, float)
  {
    SameNumber(X(a, float), X(b, float)) && SameNumber(Y(a, float), Y(b, float))
  }

  predicate ValidLine(line: seq<Geo>, float: Float) {
    line != [] && forall i :: 0 <= i < |line| ==> ValidPoint(line[i], float)
  }

  predicate IsArea(kind: string) { kind == "POLYGON" || kind == "MULTIPOLYGON" }

  function Rings(polygons: seq<Geo>): seq<seq<Geo>> {
    if polygons == [] then [] else Lists(Items(polygons[0])) + Rings(polygons[1..])
  }

  function Lists(items: seq<Geo>): seq<seq<Geo>> {
    seq(|items|, i requires 0 <= i < |items| => Items(items[i]))
  }

  /** The point lists of a geometry: its lines, or the rings of its polygons. */
  function Lines(kind: string, g: Geo): seq<seq<Geo>> {
    if kind == "LINESTRING" then [Items(g)]
    else if kind == "MULTIPOLYGON" then Rings(Items(g))
    else Lists(Items(g))
  }

  function LineComplaint(line: seq<Geo>, isArea: bool, float: Float): Option<Complaint>
    requires ValidLine(line, float)
  {
    if isArea && |line| < 4 then Some(ShortRing)
    else if isArea && !SamePlace(line[0], line[|line| - 1], float) then Some(OpenRing)
    else if |line| < 2 then Some(ShortLine)
    else if exists i :: 0 <= i < |line| && Outside(line[i], float) then Some(OutOfRange)
    else None
  }

  /** The first complaint, line by line. */
  function FirstComplaint(lines: seq<seq<Geo>>, isArea: bool, float: Float): Option<Complaint>
    requires forall i :: 0 <= i < |lines| ==> ValidLine(lines[i], float)
  {
    if lines == [] then None
    else if LineComplaint(lines[0], isArea, float).Some? then LineComplaint(lines[0], isArea, float)
    else FirstComplaint(lines[1..], isArea, float)
  }

  /** The nesting the parser proved is what makes every line a list of points. */
  lemma LinesAreValid(kind: string, g: Geo, depth: nat, float: Float)
    requires IsAccepted(kind) && depth in Depths(kind) && Uniform(g, depth, float)
    ensures forall i :: 0 <= i < |Lines(kind, g)| ==> ValidLine(Lines(kind, g)[i], float)
  {
    if kind == "MULTIPOLYGON" {
      RingsAreValid(g.items, float);
    }
  }

  lemma {:induction false} RingsAreValid(polygons: seq<Geo>, float: Float)
    requires forall i :: 0 <= i < |polygons| ==> Uniform(polygons[i], 2, float)
    ensures forall i :: 0 <= i < |Rings(polygons)| ==> ValidLine(Rings(polygons)[i], float)
  {
    if polygons != [] {
      RingsAreValid(polygons[1..], float);
      assert Uniform(polygons[0], 2, float);
      forall i | 0 <= i < |polygons[0].items| ensures ValidLine(Lists(polygons[0].items)[i], float) {
        assert Uniform(polygons[0].items[i], 1, float);
      }
    }
  }

  /** A parsed geometry nests as its kind does. */
  lemma ParsedNests(ts: seq<string>, float: Float)
    ensures match ParseTokens(ts, float)
            case Err(_) => true
            case Ok((kind, None)) => ts != [] && kind == Upper(ts[0]) && Depths(kind) != {}
            case Ok((kind, Some(g))) =>
              && ts != [] && IsLetters(ts[0]) && kind == Upper(ts[0]) && Body(ts) == Print(g)
              && exists depth :: depth in Depths(kind) && Uniform(g, depth, float)
  {
    if ts != [] {
      ParsedWasPrinted(Body(ts), float);
      if ParseList(Body(ts), float).Ok? {
        var (g, depth, rest) := ParseList(Body(ts), float).value;
        assert rest == [] ==> Print(g) + rest == Print(g);
      }
    }
  }

  /** The whole check. A complaint, or nothing when the text can be read. */
  method CheckWkt(text: string, library: Library) returns (r: Option<Complaint>)
    ensures r == Verdict(text, library)
  {
    hide Tokens, ParseTokens, FirstComplaint, Lines, IsAccepted, IsArea;
    if library.looksLikePair(text) {
      return Some(LooksLikePair);
    }
    if library.looksLikeDegrees(text) {
      return Some(LooksLikeDegrees);
    }
    var parsed := Parse(text, library.float);
    if parsed.Err? {
      return Some(NotWkt(parsed.error));
    }
    var (kind, coords) := parsed.value;
    if kind == "POINT" {
      return Some(PointGiven);
    }
    if !IsAccepted(kind) {
      return Some(WrongKind);
    }
    if coords.None? {
      return Some(EmptyGeometry);
    }
    GoodLines(text, library, kind, coords.value);
    r := CheckLines(Lines(kind, coords.value), IsArea(kind), library.float);
  }

  /** The first complaint about any line. */
  method CheckLines(lines: seq<seq<Geo>>, isArea: bool, float: Float) returns (r: Option<Complaint>)
    requires forall i :: 0 <= i < |lines| ==> ValidLine(lines[i], float)
    ensures r == FirstComplaint(lines, isArea, float)
  {
    hide SamePlace, Outside;
    var i := 0;
    assert lines[0..] == lines;
    while i < |lines|
      invariant i <= |lines|
      invariant FirstComplaint(lines, isArea, float) == FirstComplaint(lines[i..], isArea, float)
    {
      var line := lines[i];
      assert lines[i..][0] == line && lines[i..][1..] == lines[i + 1..];
      if isArea && |line| < 4 {
        return Some(ShortRing);
      }
      if isArea && !SamePlace(line[0], line[|line| - 1], float) {
        return Some(OpenRing);
      }
      if |line| < 2 {
        return Some(ShortLine);
      }
      for j := 0 to |line|
        invariant forall k :: 0 <= k < j ==> !Outside(line[k], float)
      {
        if Outside(line[j], float) {
          return Some(OutOfRange);
        }
      }
      i := i + 1;
    }
    return None;
  }

  lemma GoodLines(text: string, library: Library, kind: string, g: Geo)
    requires Tokens(Trim(text)).Some?
    requires ParseTokens(Tokens(Trim(text)).value, library.float) == Ok((kind, Some(g))) && IsAccepted(kind)
    ensures forall i :: 0 <= i < |Lines(kind, g)| ==> ValidLine(Lines(kind, g)[i], library.float)
  {
    ParsedNests(Tokens(Trim(text)).value, library.float);
    var depth :| depth in Depths(kind) && Uniform(g, depth, library.float);
    LinesAreValid(kind, g, depth, library.float);
  }

  function Verdict(text: string, library: Library): Option<Complaint> {
    if library.looksLikePair(text) then Some(LooksLikePair)
    else if library.looksLikeDegrees(text) then Some(LooksLikeDegrees)
    else
      match Tokens(Trim(text))
      case None => Some(NotWkt(NotTokens))
      case Some(ts) =>
        match ParseTokens(ts, library.float)
        case Err(e) => Some(NotWkt(e))
        case Ok((kind, coords)) =>
          if kind == "POINT" then Some(PointGiven)
          else if !IsAccepted(kind) then Some(WrongKind)
          else if coords.None? then Some(EmptyGeometry)
          else
            GoodLines(text, library, kind, coords.value);
            FirstComplaint(Lines(kind, coords.value), IsArea(kind), library.float)
  }

  // ---- what an accepted text is ----

  /** A line that can be stored: long enough, closed when it is a ring, and never off the globe. */
  predicate GoodLine(line: seq<Geo>, isArea: bool, float: Float) {
    && ValidLine(line, float)
    && |line| >= 2
    && (isArea ==> |line| >= 4 && SamePlace(line[0], line[|line| - 1], float))
    && forall i :: 0 <= i < |line| ==> !Outside(line[i], float)
  }

  /** The tokens of an accepted geometry: a kind, perhaps a tag, and a list nested as deeply as the kind asks. */
  ghost predicate WellWritten(ts: seq<string>, g: Geo, float: Float) {
    && ts != [] && IsLetters(ts[0]) && IsAccepted(Upper(ts[0]))
    && (ts == [ts[0]] + Print(g) || (|ts| > 1 && IsTag(ts[1]) && ts == [ts[0], ts[1]] + Print(g)))
    && (exists depth :: depth in Depths(Upper(ts[0])) && Uniform(g, depth, float))
    && forall i :: 0 <= i < |Lines(Upper(ts[0]), g)| ==>
         GoodLine(Lines(Upper(ts[0]), g)[i], IsArea(Upper(ts[0])), float)
  }

  lemma {:induction false} NoComplaint(lines: seq<seq<Geo>>, isArea: bool, float: Float)
    requires forall i :: 0 <= i < |lines| ==> ValidLine(lines[i], float)
    ensures FirstComplaint(lines, isArea, float).None? <==>
            forall i :: 0 <= i < |lines| ==> GoodLine(lines[i], isArea, float)
  {
    if lines != [] {
      NoComplaint(lines[1..], isArea, float);
      assert LineComplaint(lines[0], isArea, float).None? <==> GoodLine(lines[0], isArea, float);
      assert forall i :: 1 <= i < |lines| ==> lines[i] == lines[1..][i - 1];
    }
  }

  lemma WrittenFromBody(ts: seq<string>, g: Geo)
    requires ts != [] && Body(ts) == Print(g)
    ensures ts == [ts[0]] + Print(g) || (|ts| > 1 && IsTag(ts[1]) && ts == [ts[0], ts[1]] + Print(g))
  {
    if |ts| > 1 && IsTag(ts[1]) {
      assert ts == [ts[0], ts[1]] + ts[2..];
    } else {
      assert ts == [ts[0]] + ts[1..];
    }
  }

  lemma BracketIsNoWord()
    ensures !IsTag("(") && Upper("(") != "EMPTY"
  {
    assert Upper("(") == "(";
  }

  /** A well-written geometry parses to its kind and its coordinates. */
  lemma WellWrittenParses(ts: seq<string>, g: Geo, float: Float)
    requires WellWritten(ts, g, float)
    ensures ParseTokens(ts, float) == Ok((Upper(ts[0]), Some(g)))
  {
    hide Lines, GoodLine;
    var depth :| depth in Depths(Upper(ts[0])) && Uniform(g, depth, float);
    BracketIsNoWord();
    assert Print(g) + [] == Print(g) && Print(g)[0] == "(";
    if ts == [ts[0]] + Print(g) {
      assert ts[1] == "(" && ts[1..] == Print(g);
    } else {
      assert ts[2..] == Print(g);
    }
    PrintedIsParsed(g, depth, [], float);
  }

  lemma AcceptedIsWellWritten(ts: seq<string>, g: Geo, float: Float)
    requires ts != [] && ParseTokens(ts, float) == Ok((Upper(ts[0]), Some(g))) && IsAccepted(Upper(ts[0]))
    ensures forall i :: 0 <= i < |Lines(Upper(ts[0]), g)| ==> ValidLine(Lines(Upper(ts[0]), g)[i], float)
    ensures FirstComplaint(Lines(Upper(ts[0]), g), IsArea(Upper(ts[0])), float).None? <==> WellWritten(ts, g, float)
  {
    var kind := Upper(ts[0]);
    ParsedNests(ts, float);
    var depth :| depth in Depths(kind) && Uniform(g, depth, float);
    hide ParseTokens, Upper, Uniform, Lines, IsTag;
    LinesAreValid(kind, g, depth, float);
    NoComplaint(Lines(kind, g), IsArea(kind), float);
    WrittenFromBody(ts, g);
  }

  /** The check passes exactly the texts that are well-written geometries, outside the two refused patterns. */
  lemma {:induction false} PassesExactly(text: string, library: Library)
    ensures Verdict(text, library).None? <==>
            && !library.looksLikePair(text) && !library.looksLikeDegrees(text)
            && Tokens(Trim(text)).Some?
            && exists g :: WellWritten(Tokens(Trim(text)).value, g, library.float)
  {
    var float := library.float;
    if Tokens(Trim(text)).Some? {
      var ts := Tokens(Trim(text)).value;
      hide Tokens;
      if g :| WellWritten(ts, g, float) {
        WellWrittenParses(ts, g, float);
        AcceptedIsWellWritten(ts, g, float);
        KindIsNotPoint(Upper(ts[0]));
      }
      if Verdict(text, library).None? {
        ParsedNests(ts, float);
        var (kind, coords) := ParseTokens(ts, float).value;
        AcceptedIsWellWritten(ts, coords.value, float);
      }
    }
  }

  lemma KindIsNotPoint(kind: string)
    requires IsAccepted(kind)
    ensures kind != "POINT"
  {
  }

  // ---- the one way a coordinate off the globe gets through ----

  /** A longitude and a latitude. */
  predicate OnGlobe(p: Geo, float: Float)
    requires ValidPoint(p, float)
  {
    var x, y := X(p, float), Y(p, float);
    x.Finite? && y.Finite? && -180.0 <= x.r <= 180.0 && -90.0 <= y.r <= 90.0
  }

  predicate HasNaN(p: Geo, float: Float)
    requires ValidPoint(p, float)
  {
    X(p, float) == NaN || Y(p, float) == NaN
  }

  predicate LineOnGlobe(line: seq<Geo>, float: Float)
    requires ValidLine(line, float)
  {
    forall i :: 0 <= i < |line| ==> OnGlobe(line[i], float)
  }

  predicate LineHasNaN(line: seq<Geo>, float: Float)
    requires ValidLine(line, float)
  {
    exists i :: 0 <= i < |line| && HasNaN(line[i], float)
  }

  /** A good line is on the globe exactly when no longitude or latitude of it is `nan`. */
  lemma {:induction false} GoodLineOnGlobeExactly(line: seq<Geo>, isArea: bool, float: Float)
    requires GoodLine(line, isArea, float)
    ensures LineOnGlobe(line, float) <==> !LineHasNaN(line, float)
  {
    forall i | 0 <= i < |line| ensures OnGlobe(line[i], float) <==> !HasNaN(line[i], float) {
      assert !Outside(line[i], float);
    }
    hide OnGlobe, HasNaN;
    if !LineHasNaN(line, float) {
      assert forall i :: 0 <= i < |line| ==> !HasNaN(line[i], float);
    }
  }

  /** The text is read as this kind of geometry, with these coordinates. */
  ghost predicate ReadsAs(text: string, library: Library, kind: string, g: Geo) {
    Tokens(Trim(text)).Some? && ParseTokens(Tokens(Trim(text)).value, library.float) == Ok((kind, Some(g)))
  }

  /** A text that passes has all its points on the globe exactly when none of them has a `nan`. */
  lemma {:induction false} PassesOnGlobeExactly(text: string, library: Library) returns (kind: string, g: Geo)
    requires Verdict(text, library).None?
    ensures ReadsAs(text, library, kind, g)
    ensures forall i :: 0 <= i < |Lines(kind, g)| ==> ValidLine(Lines(kind, g)[i], library.float)
    ensures (forall i :: 0 <= i < |Lines(kind, g)| ==> LineOnGlobe(Lines(kind, g)[i], library.float)) <==>
            (forall i :: 0 <= i < |Lines(kind, g)| ==> !LineHasNaN(Lines(kind, g)[i], library.float))
  {
    var ts := Tokens(Trim(text)).value;
    kind, g := ParseTokens(ts, library.float).value.0, ParseTokens(ts, library.float).value.1.value;
    GoodLines(text, library, kind, g);
    NoComplaint(Lines(kind, g), IsArea(kind), library.float);
    hide Tokens, ParseTokens, Lines, GoodLine, LineOnGlobe, LineHasNaN, ValidLine, IsArea;
    forall i | 0 <= i < |Lines(kind, g)|
      ensures LineOnGlobe(Lines(kind, g)[i], library.float) <==> !LineHasNaN(Lines(kind, g)[i], library.float)
    {
      GoodLineOnGlobeExactly(Lines(kind, g)[i], IsArea(kind), library.float);
    }
  }

  /** A line through two points, in tokens. */
  function LineTokens(a: Geo, b: Geo): seq<string> {
    ["LINESTRING"] + Print(Nested([a, b]))
  }

  /** A point whose numbers the tokenizer can read, and that is not off the globe as far as comparisons tell. */
  ghost predicate Writable(p: Geo, float: Float) {
    ValidPoint(p, float) && !Outside(p, float) && AllTokens(p.numbers)
  }

  lemma LineIsPrinted(a: Geo, b: Geo, float: Float)
    requires Writable(a, float) && Writable(b, float)
    ensures Print(Nested([a, b])) == ["("] + a.numbers + [","] + b.numbers + [")"]
    ensures Lines("LINESTRING", Nested([a, b])) == [[a, b]]
  {
    hide AllTokens, Outside, AllNumbers;
    assert [a, b][1..] == [b] && PrintItems([b]) == b.numbers;
    assert PrintItems([a, b]) == a.numbers + [","] + b.numbers;
    assert ["("] + (a.numbers + [","] + b.numbers) + [")"] == ["("] + a.numbers + [","] + b.numbers + [")"];
  }

  lemma LineIsGood(a: Geo, b: Geo, float: Float)
    requires Writable(a, float) && Writable(b, float)
    ensures GoodLine([a, b], false, float) && Uniform(Nested([a, b]), 1, float)
  {
    hide ValidPoint, Outside, AllTokens;
  }

  lemma LineKind()
    ensures IsAccepted("LINESTRING") && !IsArea("LINESTRING") && 1 in Depths("LINESTRING")
  {
  }

  lemma LineKindIsCapital()
    ensures IsLetters("LINESTRING") && Upper("LINESTRING") == "LINESTRING"
  {
    hide Upper, IsLetters;
    CapitalLetters("LINESTRING");
  }

  lemma LineIsWellWritten(a: Geo, b: Geo, float: Float)
    requires Writable(a, float) && Writable(b, float)
    ensures WellWritten(LineTokens(a, b), Nested([a, b]), float) && Upper(LineTokens(a, b)[0]) == "LINESTRING"
  {
    hide Upper, GoodLine, Uniform, Lines, Print, IsLetters, IsArea, IsAccepted, Depths, WellWritten, Writable;
    LineIsGood(a, b, float);
    LineKind();
    LineKindIsCapital();
    LineIsPrinted(a, b, float);
    KindWellWritten("LINESTRING", Nested([a, b]), [a, b], float);
  }

  lemma KindWellWritten(kind: string, g: Geo, line: seq<Geo>, float: Float)
    requires IsLetters(kind) && IsAccepted(Upper(kind)) && !IsArea(Upper(kind)) && 1 in Depths(Upper(kind))
    requires Lines(Upper(kind), g) == [line] && GoodLine(line, false, float) && Uniform(g, 1, float)
    ensures WellWritten([kind] + Print(g), g, float)
  {
    hide Upper, GoodLine, Uniform, Lines, Print, IsLetters, IsArea, IsAccepted, Depths, IsTag;
    var ts := [kind] + Print(g);
    assert ts[0] == kind && ts == [ts[0]] + Print(g);
  }

  ghost predicate AllTokens(ts: seq<string>) {
    forall i :: 0 <= i < |ts| ==> IsToken(ts[i]) && IsWord(ts[i])
  }

  lemma AllTokensAppend(a: seq<string>, b: seq<string>)
    requires AllTokens(a) && AllTokens(b)
    ensures AllTokens(a + b)
  {
    hide IsToken, IsWord;
  }

  lemma LineTokensAreTokens(a: Geo, b: Geo, float: Float)
    requires Writable(a, float) && Writable(b, float)
    ensures AllTokens(LineTokens(a, b))
  {
    hide Print, AllTokens;
    LineIsPrinted(a, b, float);
    LettersAreTokens("LINESTRING");
    MarksAreTokens();
    PartsAreTokens("LINESTRING", a.numbers, b.numbers);
  }

  lemma PartsAreTokens(kind: string, a: seq<string>, b: seq<string>)
    requires AllTokens([kind]) && AllTokens(a) && AllTokens(b)
    requires AllTokens(["("]) && AllTokens([","]) && AllTokens([")"])
    ensures AllTokens([kind] + (["("] + a + [","] + b + [")"]))
  {
    hide AllTokens;
    AllTokensAppend(["("], a);
    AllTokensAppend(["("] + a, [","]);
    AllTokensAppend(["("] + a + [","], b);
    AllTokensAppend(["("] + a + [","] + b, [")"]);
    AllTokensAppend([kind], ["("] + a + [","] + b + [")"]);
  }

  lemma MarksAreTokens()
    ensures AllTokens(["("]) && AllTokens([","]) && AllTokens([")"])
  {
    hide IsToken, IsWord;
    MarkIsToken("(");
    MarkIsToken(",");
    MarkIsToken(")");
  }

  lemma {:induction false} LettersAreTokens(s: string)
    requires s != "" && forall i :: 0 <= i < |s| ==> IsLetter(s[i])
    ensures IsToken(s) && IsWord(s) && LettersLength(s) == |s| && AllTokens([s])
  {
    if |s| > 1 {
      LettersAreTokens(s[1..]);
    }
  }

  lemma MarkIsToken(s: string)
    requires |s| == 1 && IsMark(s[0])
    ensures IsToken(s) && IsWord(s)
  {
  }

  lemma DigitIsToken(s: string)
    requires |s| == 1 && IsDigit(s[0])
    ensures AllTokens([s])
  {
  }

  /** Every well-written geometry, written with spaces between its tokens, passes and is read as what was written. */
  lemma {:induction false} WrittenPasses(ts: seq<string>, g: Geo, library: Library)
    requires AllTokens(ts) && WellWritten(ts, g, library.float)
    requires !library.looksLikePair(Join(ts)) && !library.looksLikeDegrees(Join(ts))
    ensures Verdict(Join(ts), library).None? && ReadsAs(Join(ts), library, Upper(ts[0]), g)
  {
    assert AllWords(ts) && forall i :: 0 <= i < |ts| ==> IsToken(ts[i]);
    hide Tokens, WellWritten, Verdict, Join, Trim, IsToken, IsWord, Upper, ParseTokens;
    TokensOfSpaced(ts);
    TrimJoin(ts);
    PassesExactly(Join(ts), library);
    WellWrittenParses(ts, g, library.float);
  }

  /** A line through two such points, for one. */
  lemma {:induction false} WrittenLinePasses(a: Geo, b: Geo, library: Library)
    requires Writable(a, library.float) && Writable(b, library.float)
    requires var text := Join(LineTokens(a, b)); !library.looksLikePair(text) && !library.looksLikeDegrees(text)
    ensures var text := Join(LineTokens(a, b));
            Verdict(text, library).None? && ReadsAs(text, library, "LINESTRING", Nested([a, b]))
  {
    hide LineTokens, Writable, WellWritten, Verdict, Join, ReadsAs, AllTokens, Upper;
    LineTokensAreTokens(a, b, library.float);
    LineIsWellWritten(a, b, library.float);
    WrittenPasses(LineTokens(a, b), Nested([a, b]), library);
  }

  function Pair(x: string, y: string): Geo {
    Point([x, y])
  }

  lemma PairIsWritable(x: string, y: string, float: Float)
    requires AllTokens([x]) && AllTokens([y]) && !IsBreak(x) && !IsBreak(y)
    requires float(x).Some? && !Magnitude(float(x).value, 180.0) && float(y).Some? && !Magnitude(float(y).value, 90.0)
    ensures var p := Pair(x, y); Writable(p, float) && X(p, float) == float(x).value && Y(p, float) == float(y).value
  {
    var p := Pair(x, y);
    AllTokensAppend([x], [y]);
    assert [x, y] == [x] + [y];
    assert p.numbers[0] == x && p.numbers[1] == y;
    hide AllTokens, Magnitude, IsBreak;
  }

  lemma NanTokens()
    ensures AllTokens(["nan"]) && AllTokens(["0"]) && AllTokens(["1"])
    ensures !IsBreak("nan") && !IsBreak("0") && !IsBreak("1")
  {
    hide AllTokens;
    LettersAreTokens("nan");
    DigitIsToken("0");
    DigitIsToken("1");
  }

  /** `float` also reads the word `nan`, which no range check refuses: the line `( nan 0 , 1 1 )` passes,
      although it has a point with no longitude. */
  lemma {:induction false} NanPasses(library: Library)
    requires var f := library.float; f("nan") == Some(NaN) && f("0") == Some(Finite(0.0)) && f("1") == Some(Finite(1.0))
    requires var text := Join(LineTokens(Pair("nan", "0"), Pair("1", "1")));
             !library.looksLikePair(text) && !library.looksLikeDegrees(text)
    ensures var p, q := Pair("nan", "0"), Pair("1", "1");
            var text := Join(LineTokens(p, q));
            && Verdict(text, library).None? && ReadsAs(text, library, "LINESTRING", Nested([p, q]))
            && ValidPoint(p, library.float) && HasNaN(p, library.float) && !OnGlobe(p, library.float)
  {
    NanTokens();
    PairIsWritable("nan", "0", library.float);
    PairIsWritable("1", "1", library.float);
    assert ValidPoint(Pair("nan", "0"), library.float);
    hide AllTokens, LineTokens, Join, Verdict, ReadsAs, Writable, ValidPoint, X, Y, Pair, IsBreak;
    WrittenLinePasses(Pair("nan", "0"), Pair("1", "1"), library);
  }

  lemma {:induction false} CapitalLetters(s: string)
    requires s != "" && forall i :: 0 <= i < |s| ==> 'A' <= s[i] <= 'Z'
    ensures IsLetters(s) && Upper(s) == s
  {
    if |s| > 1 {
      CapitalLetters(s[1..]);
    }
  }
}
