/** Which geometry texts pass, kind by kind, said about the tokens and the numbers they are read as. */
module WktLaws {
  import opened Wrappers
  import opened Words
  import opened WktTokens
  import opened WktParser
  import opened WktCheck

  // ---- points, lines and rings ----

  /** Two to four number tokens. */
  ghost predicate Coordinate(p: Geo, float: Float) {
    && p.Point? && 2 <= |p.numbers| <= 4
    && forall i :: 0 <= i < |p.numbers| ==>
         p.numbers[i] != "(" && p.numbers[i] != ")" && p.numbers[i] != "," && float(p.numbers[i]).Some?
  }

  /** At most `limit` in size, or `nan`, which is not compared. */
  ghost predicate Within(n: Option<Num>, limit: real) {
    n == Some(NaN) || (n.Some? && n.value.Finite? && -limit <= n.value.r <= limit)
  }

  /** A longitude first and a latitude second, in degrees. */
  ghost predicate IsPlace(p: Geo, float: Float) {
    Coordinate(p, float) && Within(float(p.numbers[0]), 180.0) && Within(float(p.numbers[1]), 90.0)
  }

  ghost predicate ArePlaces(points: seq<Geo>, float: Float) {
    forall i :: 0 <= i < |points| ==> IsPlace(points[i], float)
  }

  /** Both numbers are the same, and neither is `nan`. */
  ghost predicate Closes(first: Geo, last: Geo, float: Float)
    requires Coordinate(first, float) && Coordinate(last, float)
  {
    && float(first.numbers[0]) == float(last.numbers[0]) && float(first.numbers[0]) != Some(NaN)
    && float(first.numbers[1]) == float(last.numbers[1]) && float(first.numbers[1]) != Some(NaN)
  }

  ghost predicate IsLine(points: seq<Geo>, float: Float) {
    |points| >= 2 && ArePlaces(points, float)
  }

  ghost predicate IsRing(points: seq<Geo>, float: Float) {
    && |points| >= 4 && ArePlaces(points, float)
    && IsPlace(points[0], float) && IsPlace(points[|points| - 1], float)
    && Closes(points[0], points[|points| - 1], float)
  }

  lemma CoordinateIsValid(p: Geo, float: Float)
    ensures Coordinate(p, float) <==> ValidPoint(p, float)
  {
  }

  lemma PlaceIsInside(p: Geo, float: Float)
    ensures IsPlace(p, float) <==> ValidPoint(p, float) && !Outside(p, float)
  {
    CoordinateIsValid(p, float);
    hide Coordinate;
  }

  lemma ClosesIsSamePlace(a: Geo, b: Geo, float: Float)
    requires Coordinate(a, float) && Coordinate(b, float)
    ensures ValidPoint(a, float) && ValidPoint(b, float)
    ensures Closes(a, b, float) <==> SamePlace(a, b, float)
  {
    CoordinateIsValid(a, float);
    CoordinateIsValid(b, float);
  }

  /** A ring is good exactly when it has four points or more, all of them in range, and the numbers of the last are
      those of the first. */
  lemma {:induction false} GoodRingExactly(points: seq<Geo>, float: Float)
    ensures GoodLine(points, true, float) <==> IsRing(points, float)
  {
    PointsExactly(points, float);
    hide IsPlace, ValidPoint, Outside, SamePlace, Closes, Coordinate, ArePlaces;
    if |points| >= 4 && ArePlaces(points, float) {
      PlacesAre(points, float);
      ClosesIsSamePlace(points[0], points[|points| - 1], float);
    }
  }

  /** A line is good exactly when it has two points or more, all of them in range. */
  lemma {:induction false} GoodLineExactly(points: seq<Geo>, float: Float)
    ensures GoodLine(points, false, float) <==> IsLine(points, float)
  {
    PointsExactly(points, float);
    hide IsPlace, ValidPoint, Outside, SamePlace, ArePlaces;
  }

  lemma PlacesAre(points: seq<Geo>, float: Float)
    requires ArePlaces(points, float) && points != []
    ensures IsPlace(points[0], float) && IsPlace(points[|points| - 1], float)
    ensures Coordinate(points[0], float) && Coordinate(points[|points| - 1], float)
  {
  }

  lemma PointsExactly(points: seq<Geo>, float: Float)
    ensures ArePlaces(points, float) <==>
            && (forall i :: 0 <= i < |points| ==> ValidPoint(points[i], float))
            && forall i :: 0 <= i < |points| ==> !Outside(points[i], float)
  {
    forall i | 0 <= i < |points|
      ensures IsPlace(points[i], float) <==> ValidPoint(points[i], float) && !Outside(points[i], float)
    {
      PlaceIsInside(points[i], float);
    }
    hide IsPlace, ValidPoint, Outside;
  }

  // ---- the shapes ----

  ghost predicate IsPolygon(g: Geo, float: Float) {
    && g.Nested? && g.items != []
    && forall i :: 0 <= i < |g.items| ==> g.items[i].Nested? && IsRing(g.items[i].items, float)
  }

  /** What each accepted kind is made of: a line, lines, rings, or polygons made of rings. */
  ghost predicate Shape(kind: string, g: Geo, float: Float) {
    && g.Nested? && g.items != []
    && ((kind == "LINESTRING" && IsLine(g.items, float))
        || (kind == "MULTILINESTRING" &&
            forall i :: 0 <= i < |g.items| ==> g.items[i].Nested? && IsLine(g.items[i].items, float))
        || (kind == "POLYGON" && IsPolygon(g, float))
        || (kind == "MULTIPOLYGON" && forall i :: 0 <= i < |g.items| ==> IsPolygon(g.items[i], float)))
  }

  ghost predicate Nests(kind: string, g: Geo, float: Float) {
    exists depth :: depth in Depths(kind) && Uniform(g, depth, float)
  }

  ghost predicate AllGood(lines: seq<seq<Geo>>, isArea: bool, float: Float) {
    forall i :: 0 <= i < |lines| ==> GoodLine(lines[i], isArea, float)
  }

  lemma GoodIsUniform(g: Geo, isArea: bool, float: Float)
    ensures g.Nested? && GoodLine(g.items, isArea, float) ==> Uniform(g, 1, float)
  {
  }

  lemma {:induction false} GoodRings(polygons: seq<Geo>, float: Float)
    ensures AllGood(Rings(polygons), true, float) <==>
            forall i :: 0 <= i < |polygons| ==> AllGood(Lists(WktCheck.Items(polygons[i])), true, float)
  {
    hide GoodLine;
    if polygons != [] {
      var first, rest := Lists(WktCheck.Items(polygons[0])), Rings(polygons[1..]);
      GoodRings(polygons[1..], float);
      assert Rings(polygons) == first + rest;
      AllGoodAppend(first, rest, true, float);
      hide AllGood, Rings, Lists;
      assert forall i :: 1 <= i < |polygons| ==> polygons[i] == polygons[1..][i - 1];
    }
  }

  lemma AllGoodAppend(a: seq<seq<Geo>>, b: seq<seq<Geo>>, isArea: bool, float: Float)
    ensures AllGood(a + b, isArea, float) <==> AllGood(a, isArea, float) && AllGood(b, isArea, float)
  {
    hide GoodLine;
    if AllGood(a + b, isArea, float) {
      assert forall i :: 0 <= i < |a| ==> (a + b)[i] == a[i];
      assert forall i :: 0 <= i < |b| ==> (a + b)[|a| + i] == b[i];
    }
  }

  /** Lists of points of depth two, all good. */
  lemma GoodLists(g: Geo, isArea: bool, float: Float)
    ensures Uniform(g, 2, float) && AllGood(Lists(WktCheck.Items(g)), isArea, float) <==>
            g.Nested? && g.items != []
            && forall i :: 0 <= i < |g.items| ==> g.items[i].Nested? && GoodLine(g.items[i].items, isArea, float)
  {
    if g.Nested? {
      forall i | 0 <= i < |g.items|
        ensures g.items[i].Nested? && GoodLine(g.items[i].items, isArea, float) ==> Uniform(g.items[i], 1, float)
        ensures Lists(g.items)[i] == WktCheck.Items(g.items[i])
      {
        GoodIsUniform(g.items[i], isArea, float);
      }
      hide GoodLine, ValidPoint;
    }
  }

  lemma PolygonExactly(g: Geo, float: Float)
    ensures IsPolygon(g, float) <==> Uniform(g, 2, float) && AllGood(Lists(WktCheck.Items(g)), true, float)
  {
    hide GoodLine, IsRing, Uniform, AllGood, Lists;
    GoodLists(g, true, float);
    if g.Nested? {
      forall i | 0 <= i < |g.items| && g.items[i].Nested?
        ensures GoodLine(g.items[i].items, true, float) <==> IsRing(g.items[i].items, float)
      {
        GoodRingExactly(g.items[i].items, float);
      }
    }
  }

  lemma DepthsOf(kind: string)
    ensures kind == "POINT" || kind == "LINESTRING" ==> Depths(kind) == {1}
    ensures kind == "POLYGON" || kind == "MULTILINESTRING" ==> Depths(kind) == {2}
    ensures kind == "MULTIPOINT" ==> Depths(kind) == {1, 2}
    ensures kind == "MULTIPOLYGON" ==> Depths(kind) == {3}
  {
  }

  lemma NestsAt(kind: string, g: Geo, float: Float, depth: nat)
    requires Depths(kind) == {depth}
    ensures Nests(kind, g, float) <==> Uniform(g, depth, float)
  {
    hide Uniform, Depths;
    assert depth in Depths(kind);
  }

  lemma LineStringExactly(g: Geo, float: Float)
    ensures Shape("LINESTRING", g, float) <==>
            Nests("LINESTRING", g, float) && AllGood(Lines("LINESTRING", g), false, float)
  {
    DepthsOf("LINESTRING");
    NestsAt("LINESTRING", g, float, 1);
    assert Lines("LINESTRING", g) == [WktCheck.Items(g)];
    assert AllGood([WktCheck.Items(g)], false, float) <==> GoodLine(WktCheck.Items(g), false, float) by {
      assert [WktCheck.Items(g)][0] == WktCheck.Items(g);
      hide GoodLine;
    }
    hide GoodLine, IsLine, Uniform, Depths, Nests, Lines, AllGood;
    if g.Nested? {
      GoodLineExactly(g.items, float);
      GoodIsUniform(g, false, float);
    }
    UniformIsList(g, 1, float);
  }

  lemma UniformIsList(g: Geo, depth: nat, float: Float)
    ensures Uniform(g, depth, float) ==> g.Nested? && g.items != []
  {
  }

  lemma MultiLineStringExactly(g: Geo, float: Float)
    ensures Shape("MULTILINESTRING", g, float) <==>
            Nests("MULTILINESTRING", g, float) && AllGood(Lines("MULTILINESTRING", g), false, float)
  {
    DepthsOf("MULTILINESTRING");
    NestsAt("MULTILINESTRING", g, float, 2);
    assert Lines("MULTILINESTRING", g) == Lists(WktCheck.Items(g));
    hide GoodLine, IsLine, Uniform, Depths, Nests, Lines, AllGood, Lists;
    GoodLists(g, false, float);
    if g.Nested? {
      forall i | 0 <= i < |g.items| && g.items[i].Nested?
        ensures GoodLine(g.items[i].items, false, float) <==> IsLine(g.items[i].items, float)
      {
        GoodLineExactly(g.items[i].items, float);
      }
    }
  }

  lemma PolygonKindExactly(g: Geo, float: Float)
    ensures Shape("POLYGON", g, float) <==> Nests("POLYGON", g, float) && AllGood(Lines("POLYGON", g), true, float)
  {
    DepthsOf("POLYGON");
    NestsAt("POLYGON", g, float, 2);
    assert Lines("POLYGON", g) == Lists(WktCheck.Items(g));
    assert Shape("POLYGON", g, float) <==> IsPolygon(g, float);
    hide GoodLine, Uniform, Depths, Nests, Lines, AllGood, Lists, IsPolygon, Shape;
    PolygonExactly(g, float);
  }

  lemma MultiPolygonExactly(g: Geo, float: Float)
    ensures Shape("MULTIPOLYGON", g, float) <==>
            Nests("MULTIPOLYGON", g, float) && AllGood(Lines("MULTIPOLYGON", g), true, float)
  {
    DepthsOf("MULTIPOLYGON");
    NestsAt("MULTIPOLYGON", g, float, 3);
    assert Lines("MULTIPOLYGON", g) == Rings(WktCheck.Items(g));
    assert Uniform(g, 3, float) <==>
           g.Nested? && g.items != [] && forall i :: 0 <= i < |g.items| ==> Uniform(g.items[i], 2, float);
    hide GoodLine, Uniform, Depths, Nests, Lines, AllGood, Lists, Rings, IsPolygon;
    GoodRings(WktCheck.Items(g), float);
    if g.Nested? {
      forall i | 0 <= i < |g.items|
        ensures IsPolygon(g.items[i], float) <==>
                Uniform(g.items[i], 2, float) && AllGood(Lists(WktCheck.Items(g.items[i])), true, float)
      {
        PolygonExactly(g.items[i], float);
      }
    }
  }

  lemma {:induction false} ShapeExactly(kind: string, g: Geo, float: Float)
    ensures Shape(kind, g, float) <==>
            IsAccepted(kind) && Nests(kind, g, float) && AllGood(Lines(kind, g), IsArea(kind), float)
  {
    hide Shape, Nests, Lines, AllGood;
    if Shape(kind, g, float) {
      NoOtherShape(kind, g, float);
    }
    LineStringExactly(g, float);
    MultiLineStringExactly(g, float);
    PolygonKindExactly(g, float);
    MultiPolygonExactly(g, float);
  }

  lemma NoOtherShape(kind: string, g: Geo, float: Float)
    requires Shape(kind, g, float)
    ensures kind == "LINESTRING" || kind == "MULTILINESTRING" || kind == "POLYGON" || kind == "MULTIPOLYGON"
  {
    hide IsLine, IsPolygon;
  }

  // ---- the words in front of the coordinates ----

  /** The capitals of `kind`, or the small letters of them. */
  ghost predicate SpelledAs(word: string, kind: string) {
    |word| == |kind| && forall i :: 0 <= i < |word| ==> word[i] == kind[i] || word[i] == LowerChar(kind[i])
  }

  ghost predicate Capitals(kind: string) {
    forall i :: 0 <= i < |kind| ==> 'A' <= kind[i] <= 'Z'
  }

  lemma {:induction false} UpperAt(t: string)
    ensures |Upper(t)| == |t| && forall i :: 0 <= i < |t| ==> Upper(t)[i] == UpperChar(t[i])
  {
    if t != "" {
      UpperAt(t[1..]);
    }
  }

  /** A word is read as a kind whatever the case of its letters. */
  lemma {:induction false} UpperExactly(t: string, kind: string)
    requires Capitals(kind)
    ensures Upper(t) == kind <==> SpelledAs(t, kind)
    ensures kind != "" && SpelledAs(t, kind) ==> IsLetters(t)
  {
    UpperAt(t);
    if SpelledAs(t, kind) {
      forall i | 0 <= i < |t| ensures Upper(t)[i] == kind[i] && IsLetter(t[i]) {
      }
      if t != "" {
        LettersAreTokens(t);
      }
    }
  }

  /** `Z`, `M` or `ZM`: the dimensions a kind may be followed by. */
  ghost predicate IsDimension(t: string) {
    SpelledAs(t, "Z") || SpelledAs(t, "M") || SpelledAs(t, "ZM")
  }

  lemma TagIsDimension(t: string)
    ensures IsTag(t) <==> IsDimension(t)
  {
    UpperExactly(t, "Z");
    UpperExactly(t, "M");
    UpperExactly(t, "ZM");
  }

  /** The kind, perhaps its dimensions, and then these tokens. */
  ghost predicate Written(ts: seq<string>, kind: string, coordinates: seq<string>) {
    && ts != [] && SpelledAs(ts[0], kind)
    && (ts[1..] == coordinates || (|ts| > 1 && IsDimension(ts[1]) && ts[2..] == coordinates))
  }

  lemma AcceptedKinds(kind: string)
    requires IsAccepted(kind)
    ensures Capitals(kind) && kind != ""
  {
  }

  lemma WellWrittenExactly(ts: seq<string>, g: Geo, float: Float)
    ensures WellWritten(ts, g, float) <==>
            exists kind :: Shape(kind, g, float) && Written(ts, kind, Print(g))
  {
    hide Upper, IsLetters, IsAccepted, Depths, Uniform, Lines, GoodLine, IsArea, Shape, Print, IsTag, IsDimension;
    if ts != [] {
      var kind := Upper(ts[0]);
      ShapeExactly(kind, g, float);
      ShownByKind(ts, Print(g));
      if WellWritten(ts, g, float) {
        AcceptedKinds(kind);
        UpperExactly(ts[0], kind);
      }
      if k :| Shape(k, g, float) && Written(ts, k, Print(g)) {
        ShapeExactly(k, g, float);
        AcceptedKinds(k);
        UpperExactly(ts[0], k);
      }
    }
  }

  lemma ShownByKind(ts: seq<string>, body: seq<string>)
    requires ts != []
    ensures ts == [ts[0]] + body <==> ts[1..] == body
    ensures |ts| > 1 ==> (IsTag(ts[1]) <==> IsDimension(ts[1])) && (ts == [ts[0], ts[1]] + body <==> ts[2..] == body)
  {
    hide IsTag, IsDimension;
    if |ts| > 1 {
      TagIsDimension(ts[1]);
    }
  }

  /** A text passes exactly when its tokens write a geometry of an accepted kind: a line of two points or more, some
      such lines, some closed rings of four points or more, or some polygons made of such rings, all in range. */
  lemma {:induction false} PassesByKind(text: string, library: Library)
    ensures Verdict(text, library).None? <==>
            && !library.looksLikePair(text) && !library.looksLikeDegrees(text)
            && Tokens(Trim(text)).Some?
            && exists kind, g :: Shape(kind, g, library.float) && Written(Tokens(Trim(text)).value, kind, Print(g))
  {
    hide Verdict, Tokens, WellWritten, Shape, Written, Print, Trim;
    PassesExactly(text, library);
    if Tokens(Trim(text)).Some? {
      var ts := Tokens(Trim(text)).value;
      forall g ensures WellWritten(ts, g, library.float) <==>
                       exists kind :: Shape(kind, g, library.float) && Written(ts, kind, Print(g)) {
        WellWrittenExactly(ts, g, library.float);
      }
    }
  }

  // ---- what else parses ----

  ghost predicate Coordinates(g: Geo, float: Float) {
    g.Nested? && g.items != [] && forall i :: 0 <= i < |g.items| ==> Coordinate(g.items[i], float)
  }

  ghost predicate CoordinateLists(g: Geo, float: Float) {
    g.Nested? && g.items != [] && forall i :: 0 <= i < |g.items| ==> Coordinates(g.items[i], float)
  }

  /** How each kind nests its coordinates. */
  ghost predicate NestsAs(kind: string, g: Geo, float: Float) {
    || (kind == "POINT" && Coordinates(g, float) && |g.items| == 1)
    || (kind == "LINESTRING" && Coordinates(g, float))
    || (kind == "MULTIPOINT" && (Coordinates(g, float) || CoordinateLists(g, float)))
    || (kind == "POLYGON" && CoordinateLists(g, float))
    || (kind == "MULTILINESTRING" && CoordinateLists(g, float))
    || (kind == "MULTIPOLYGON" && g.Nested? && g.items != [] &&
        forall i :: 0 <= i < |g.items| ==> CoordinateLists(g.items[i], float))
  }

  lemma CoordinatesExactly(g: Geo, float: Float)
    ensures Coordinates(g, float) <==> Uniform(g, 1, float)
    ensures CoordinateLists(g, float) <==> Uniform(g, 2, float)
  {
    CoordinatesAreUniform(g, float);
    if g.Nested? {
      forall i | 0 <= i < |g.items| ensures Coordinates(g.items[i], float) <==> Uniform(g.items[i], 1, float) {
        CoordinatesAreUniform(g.items[i], float);
      }
    }
    hide Coordinates, Coordinate;
  }

  lemma CoordinatesAreUniform(g: Geo, float: Float)
    ensures Coordinates(g, float) <==> Uniform(g, 1, float)
  {
    if g.Nested? {
      forall i | 0 <= i < |g.items| ensures Coordinate(g.items[i], float) <==> ValidPoint(g.items[i], float) {
        CoordinateIsValid(g.items[i], float);
      }
    }
    hide Coordinate, ValidPoint;
  }

  lemma NestsExactly(kind: string, g: Geo, float: Float)
    ensures NestsAs(kind, g, float) <==> Nests(kind, g, float) && (kind == "POINT" ==> |WktCheck.Items(g)| == 1)
  {
    DepthsOf(kind);
    CoordinatesExactly(g, float);
    assert Uniform(g, 3, float) <==>
           g.Nested? && g.items != [] && forall i :: 0 <= i < |g.items| ==> Uniform(g.items[i], 2, float);
    if g.Nested? {
      forall i | 0 <= i < |g.items| ensures CoordinateLists(g.items[i], float) <==> Uniform(g.items[i], 2, float) {
        CoordinatesExactly(g.items[i], float);
      }
    }
    hide Coordinates, CoordinateLists, Uniform;
    assert kind == "MULTIPOINT" ==> 1 in Depths(kind) && 2 in Depths(kind);
    hide Depths;
    if exists depth :: Depths(kind) == {depth} {
      var depth :| Depths(kind) == {depth};
      NestsAt(kind, g, float, depth);
    }
  }

  ghost predicate IsKind(kind: string) {
    || kind == "POINT" || kind == "LINESTRING" || kind == "POLYGON"
    || kind == "MULTIPOINT" || kind == "MULTILINESTRING" || kind == "MULTIPOLYGON"
  }

  lemma KindsExactly(kind: string)
    ensures Depths(kind) != {} <==> IsKind(kind)
  {
  }

  lemma KindsAreCapital(kind: string)
    requires Depths(kind) != {}
    ensures Capitals(kind) && kind != ""
  {
  }

  /** The body of written tokens is what was written, when that does not start with a dimension. */
  lemma WrittenBody(ts: seq<string>, kind: string, body: seq<string>)
    requires Depths(kind) != {} && body != [] && !IsDimension(body[0])
    ensures Written(ts, kind, body) <==> ts != [] && IsLetters(ts[0]) && Upper(ts[0]) == kind && Body(ts) == body
  {
    KindsAreCapital(kind);
    hide Upper, IsLetters, Depths, IsTag, IsDimension, SpelledAs, Capitals;
    if ts != [] {
      UpperExactly(ts[0], kind);
      if |ts| > 1 {
        TagIsDimension(ts[1]);
      }
    }
  }

  lemma BracketIsFirst(g: Geo)
    requires g.Nested?
    ensures Print(g) != [] && Print(g)[0] == "(" && !IsDimension(Print(g)[0]) && Upper(Print(g)[0]) != "EMPTY"
  {
    BracketIsNoWord();
    TagIsDimension("(");
  }

  /** A text parses to a kind and coordinates exactly when its tokens write them, nested as the kind nests them. */
  lemma {:induction false} ParsesExactly(ts: seq<string>, kind: string, g: Geo, float: Float)
    ensures ParseTokens(ts, float) == Ok((kind, Some(g))) <==> NestsAs(kind, g, float) && Written(ts, kind, Print(g))
  {
    hide Upper, Uniform, IsLetters, Print, Written, NestsAs, IsTag, IsDimension;
    NestsExactly(kind, g, float);
    ParsedNests(ts, float);
    if Nests(kind, g, float) {
      var depth :| depth in Depths(kind) && Uniform(g, depth, float);
      UniformIsList(g, depth, float);
      BracketIsFirst(g);
      WrittenBody(ts, kind, Print(g));
      PrintedIsParsed(g, depth, [], float);
      assert Print(g) + [] == Print(g);
      hide Depths, Nests;
    }
  }

  /** It parses to a kind without coordinates exactly when `EMPTY` is all that is written. */
  lemma {:induction false} ParsesEmptyExactly(ts: seq<string>, kind: string, float: Float)
    ensures ParseTokens(ts, float) == Ok((kind, None)) <==>
            IsKind(kind) && exists word :: SpelledAs(word, "EMPTY") && Written(ts, kind, [word])
  {
    KindsExactly(kind);
    hide IsKind, Upper, Uniform, IsLetters, Print, Written, Depths, IsTag, IsDimension, SpelledAs;
    if Depths(kind) != {} {
      forall word | SpelledAs(word, "EMPTY")
        ensures Written(ts, kind, [word]) <==>
                ts != [] && IsLetters(ts[0]) && Upper(ts[0]) == kind && Body(ts) == [word] && Upper(word) == "EMPTY"
      {
        EmptyIsNoDimension(word);
        WrittenBody(ts, kind, [word]);
      }
    }
    if ParseTokens(ts, float) == Ok((kind, None)) {
      assert [Body(ts)[0]] == Body(ts);
      UpperExactly(Body(ts)[0], "EMPTY");
    }
  }

  lemma EmptyIsNoDimension(word: string)
    requires SpelledAs(word, "EMPTY")
    ensures !IsDimension(word) && Upper(word) == "EMPTY"
  {
    UpperExactly(word, "EMPTY");
  }

  // ---- what is said of the others ----

  /** The text is of this kind, with coordinates or empty. */
  ghost predicate IsOfKind(text: string, library: Library, kind: string) {
    && !library.looksLikePair(text) && !library.looksLikeDegrees(text)
    && Tokens(Trim(text)).Some?
    && var ts := Tokens(Trim(text)).value;
       (exists g :: NestsAs(kind, g, library.float) && Written(ts, kind, Print(g))) || IsEmpty(ts, kind)
  }

  ghost predicate IsEmpty(ts: seq<string>, kind: string) {
    exists word :: SpelledAs(word, "EMPTY") && Written(ts, kind, [word])
  }

  lemma ParsedKind(ts: seq<string>, kind: string, float: Float)
    requires IsKind(kind)
    ensures ParseTokens(ts, float).Ok? && ParseTokens(ts, float).value.0 == kind <==>
            (exists g :: NestsAs(kind, g, float) && Written(ts, kind, Print(g))) || IsEmpty(ts, kind)
  {
    ParsesEmptyExactly(ts, kind, float);
    hide ParseTokens, NestsAs, Written, Print, IsKind, SpelledAs;
    if ParseTokens(ts, float).Ok? && ParseTokens(ts, float).value.0 == kind && ParseTokens(ts, float).value.1.None? {
      assert ParseTokens(ts, float) == Ok((kind, None));
    }
    if ParseTokens(ts, float).Ok? && ParseTokens(ts, float).value.0 == kind && ParseTokens(ts, float).value.1.Some? {
      var g := ParseTokens(ts, float).value.1.value;
      assert ParseTokens(ts, float) == Ok((kind, Some(g)));
      ParsesExactly(ts, kind, g, float);
    }
    if g :| NestsAs(kind, g, float) && Written(ts, kind, Print(g)) {
      ParsesExactly(ts, kind, g, float);
    }
  }

  /** A complaint about a line. */
  ghost predicate AboutLine(r: Option<Complaint>) {
    r == None || r == Some(ShortRing) || r == Some(OpenRing) || r == Some(ShortLine) || r == Some(OutOfRange)
  }

  lemma {:induction false} ComplaintsAboutLines(lines: seq<seq<Geo>>, isArea: bool, float: Float)
    requires forall i :: 0 <= i < |lines| ==> ValidLine(lines[i], float)
    ensures AboutLine(FirstComplaint(lines, isArea, float))
  {
    hide ValidLine, SamePlace, Outside;
    if lines != [] {
      ComplaintsAboutLines(lines[1..], isArea, float);
    }
  }

  lemma VerdictOfKind(text: string, library: Library)
    requires Tokens(Trim(text)).Some? && !library.looksLikePair(text) && !library.looksLikeDegrees(text)
    ensures var verdict, parsed := Verdict(text, library), ParseTokens(Tokens(Trim(text)).value, library.float);
            && (verdict == Some(PointGiven) <==> parsed.Ok? && parsed.value.0 == "POINT")
            && (verdict == Some(WrongKind) <==>
                  parsed.Ok? && parsed.value.0 != "POINT" && !IsAccepted(parsed.value.0))
            && (verdict == Some(EmptyGeometry) <==> parsed.Ok? && IsAccepted(parsed.value.0) && parsed.value.1 == None)
  {
    hide Tokens, ParseTokens, Lines, FirstComplaint, Trim, IsArea;
    var parsed := ParseTokens(Tokens(Trim(text)).value, library.float);
    if parsed.Ok? && IsAccepted(parsed.value.0) && parsed.value.1.Some? {
      var (kind, g) := (parsed.value.0, parsed.value.1.value);
      GoodLines(text, library, kind, g);
      ComplaintsAboutLines(Lines(kind, g), IsArea(kind), library.float);
    }
  }

  /** What parses is of one of the kinds. */
  lemma ParsedIsKind(ts: seq<string>, float: Float)
    requires ParseTokens(ts, float).Ok?
    ensures IsKind(ParseTokens(ts, float).value.0)
  {
    ParsedNests(ts, float);
    KindsExactly(ParseTokens(ts, float).value.0);
    hide ParseTokens, Uniform, Print;
  }

  lemma OtherKinds(kind: string)
    requires IsKind(kind)
    ensures IsAccepted(kind) <==> kind != "POINT" && kind != "MULTIPOINT"
  {
  }

  /** A point is turned away as one, a multipoint for its kind, and an empty geometry of the other kinds as empty. */
  lemma {:induction false} TurnedAwayExactly(text: string, library: Library)
    ensures Verdict(text, library) == Some(PointGiven) <==> IsOfKind(text, library, "POINT")
    ensures Verdict(text, library) == Some(WrongKind) <==> IsOfKind(text, library, "MULTIPOINT")
    ensures Verdict(text, library) == Some(EmptyGeometry) <==>
            && !library.looksLikePair(text) && !library.looksLikeDegrees(text) && Tokens(Trim(text)).Some?
            && exists kind :: IsKind(kind) && kind != "POINT" && kind != "MULTIPOINT"
                              && IsEmpty(Tokens(Trim(text)).value, kind)
  {
    if Tokens(Trim(text)).Some? && !library.looksLikePair(text) && !library.looksLikeDegrees(text) {
      var ts := Tokens(Trim(text)).value;
      VerdictOfKind(text, library);
      ParsedKind(ts, "POINT", library.float);
      ParsedKind(ts, "MULTIPOINT", library.float);
      hide Tokens, ParseTokens, IsEmpty, NestsAs, Written, Verdict, Trim, Print, IsAccepted;
      if ParseTokens(ts, library.float).Ok? {
        ParsedIsKind(ts, library.float);
        OtherKinds(ParseTokens(ts, library.float).value.0);
      }
      EmptyKind(ts, library.float);
    }
  }

  lemma EmptyKind(ts: seq<string>, float: Float)
    ensures ParseTokens(ts, float).Ok? && IsAccepted(ParseTokens(ts, float).value.0)
            && ParseTokens(ts, float).value.1 == None <==>
            exists kind :: IsKind(kind) && kind != "POINT" && kind != "MULTIPOINT" && IsEmpty(ts, kind)
  {
    hide ParseTokens, Written, IsAccepted, IsKind;
    forall kind ensures ParseTokens(ts, float) == Ok((kind, None)) <==> IsKind(kind) && IsEmpty(ts, kind) {
      ParsesEmptyExactly(ts, kind, float);
    }
    hide IsEmpty;
    forall kind | IsKind(kind) ensures IsAccepted(kind) <==> kind != "POINT" && kind != "MULTIPOINT" {
      OtherKinds(kind);
    }
    if ParseTokens(ts, float).Ok? && ParseTokens(ts, float).value.1 == None {
      assert ParseTokens(ts, float) == Ok((ParseTokens(ts, float).value.0, None));
    }
  }

  // ---- what does not parse ----

  /** Which look-alike a text is taken for: a bare pair before degrees. Any other is no geometry at all exactly when it
      does not tokenize, or its tokens do not write one of the six kinds. */
  lemma {:induction false} NoGeometryExactly(text: string, library: Library)
    ensures Verdict(text, library) == Some(LooksLikePair) <==> library.looksLikePair(text)
    ensures Verdict(text, library) == Some(LooksLikeDegrees) <==>
            !library.looksLikePair(text) && library.looksLikeDegrees(text)
    ensures Verdict(text, library).Some? && Verdict(text, library).value.NotWkt? <==>
            && !library.looksLikePair(text) && !library.looksLikeDegrees(text)
            && forall kind :: IsKind(kind) ==> !IsOfKind(text, library, kind)
  {
    if !library.looksLikePair(text) && !library.looksLikeDegrees(text) {
      if Tokens(Trim(text)).Some? {
        var ts := Tokens(Trim(text)).value;
        ParsedVerdict(text, library);
        forall kind | IsKind(kind)
          ensures ParseTokens(ts, library.float).Ok? && ParseTokens(ts, library.float).value.0 == kind <==>
                  IsOfKind(text, library, kind)
        {
          ParsedKind(ts, kind, library.float);
        }
        if ParseTokens(ts, library.float).Ok? {
          ParsedIsKind(ts, library.float);
        }
      }
    }
    hide Tokens, ParseTokens, Trim, NestsAs, Written, Print, IsEmpty, IsKind, FirstComplaint, Lines, IsAccepted;
  }

  lemma ParsedVerdict(text: string, library: Library)
    requires Tokens(Trim(text)).Some? && !library.looksLikePair(text) && !library.looksLikeDegrees(text)
    ensures var verdict := Verdict(text, library);
            && verdict != Some(LooksLikePair) && verdict != Some(LooksLikeDegrees)
            && (verdict.Some? && verdict.value.NotWkt? <==>
                ParseTokens(Tokens(Trim(text)).value, library.float).Err?)
  {
    hide Tokens, ParseTokens, Lines, FirstComplaint, Trim, IsArea;
    var parsed := ParseTokens(Tokens(Trim(text)).value, library.float);
    if parsed.Ok? && IsAccepted(parsed.value.0) && parsed.value.1.Some? {
      var (kind, g) := (parsed.value.0, parsed.value.1.value);
      GoodLines(text, library, kind, g);
      ComplaintsAboutLines(Lines(kind, g), IsArea(kind), library.float);
    }
  }

  /** After a kind the tokens write a list of this depth, and then `rest`. */
  ghost predicate ListThen(ts: seq<string>, kind: string, g: Geo, depth: nat, rest: seq<string>, float: Float) {
    IsKind(kind) && Uniform(g, depth, float) && Written(ts, kind, Print(g) + rest)
  }

  /** What is read after a kind that is not empty: a list, and what is left over. */
  lemma ListIsRead(ts: seq<string>, kind: string, g: Geo, depth: nat, rest: seq<string>, float: Float)
    ensures ListThen(ts, kind, g, depth, rest, float) <==>
            && ts != [] && IsLetters(ts[0]) && Upper(ts[0]) == kind && Depths(kind) != {}
            && !(|Body(ts)| == 1 && Upper(Body(ts)[0]) == "EMPTY")
            && ParseList(Body(ts), float) == Ok((g, depth, rest))
  {
    KindsExactly(kind);
    hide IsKind, Depths, IsLetters, IsTag, Upper, Uniform, ParseList, Print, Written;
    var body := Print(g) + rest;
    if IsKind(kind) && Uniform(g, depth, float) {
      UniformIsList(g, depth, float);
      BracketIsFirst(g);
      assert body[0] == Print(g)[0];
      WrittenBody(ts, kind, body);
      PrintedIsParsed(g, depth, rest, float);
    }
    if ts != [] && IsLetters(ts[0]) && Upper(ts[0]) == kind && Depths(kind) != {} {
      ParsedWasPrinted(Body(ts), float);
      if ParseList(Body(ts), float) == Ok((g, depth, rest)) {
        UniformIsList(g, depth, float);
        BracketIsFirst(g);
        assert body[0] == Print(g)[0];
        WrittenBody(ts, kind, body);
      }
    }
  }

  lemma WordFailure(ts: seq<string>, float: Float)
    ensures ParseTokens(ts, float) == Err(NoKind) <==> ts == [] || !OnlyLetters(ts[0])
    ensures ParseTokens(ts, float) == Err(UnknownKind) <==>
            ts != [] && OnlyLetters(ts[0]) && forall kind :: IsKind(kind) ==> !SpelledAs(ts[0], kind)
  {
    if ts != [] {
      SpelledAsKind(ts[0]);
      KindsExactly(Upper(ts[0]));
      LettersExactly(ts[0]);
    }
    hide IsLetters, OnlyLetters, Depths, Upper, ParseList, IsTag, SpelledAs, IsKind;
  }

  lemma ListFailure(ts: seq<string>, float: Float)
    ensures ParseTokens(ts, float) == Err(Trailing) <==>
            exists kind, g, depth, rest :: ListThen(ts, kind, g, depth, rest, float) && rest != []
    ensures ParseTokens(ts, float) == Err(WrongNesting) <==>
            exists kind, g, depth :: ListThen(ts, kind, g, depth, [], float) && depth !in Depths(kind)
    ensures ParseTokens(ts, float) == Err(PointCount) <==>
            exists g :: ListThen(ts, "POINT", g, 1, [], float) && |WktCheck.Items(g)| != 1
  {
    DepthsOf("POINT");
    forall kind, g, depth, rest {
      ListIsRead(ts, kind, g, depth, rest, float);
    }
    hide ListThen, IsLetters, Depths, Upper, ParseList, IsTag;
    if ts != [] && ParseList(Body(ts), float).Ok? {
      var (g, depth, rest) := ParseList(Body(ts), float).value;
      assert ParseList(Body(ts), float) == Ok((g, depth, rest));
    }
  }

  /** Why a text does not parse, apart from a fault inside its list: no word comes first, the word is no kind, something
      follows the list, the list does not nest as the kind's do, or a point has not just one coordinate. */
  lemma {:induction false} FailureExactly(ts: seq<string>, float: Float)
    ensures ParseTokens(ts, float) == Err(NoKind) <==> ts == [] || !OnlyLetters(ts[0])
    ensures ParseTokens(ts, float) == Err(UnknownKind) <==>
            ts != [] && OnlyLetters(ts[0]) && forall kind :: IsKind(kind) ==> !SpelledAs(ts[0], kind)
    ensures ParseTokens(ts, float) == Err(Trailing) <==>
            exists kind, g, depth, rest :: ListThen(ts, kind, g, depth, rest, float) && rest != []
    ensures ParseTokens(ts, float) == Err(WrongNesting) <==>
            exists kind, g, depth :: ListThen(ts, kind, g, depth, [], float) && depth !in Depths(kind)
    ensures ParseTokens(ts, float) == Err(PointCount) <==>
            exists g :: ListThen(ts, "POINT", g, 1, [], float) && |WktCheck.Items(g)| != 1
  {
    hide *;
    WordFailure(ts, float);
    ListFailure(ts, float);
  }

  /** A word of ASCII letters. */
  ghost predicate OnlyLetters(word: string) {
    word != "" && forall i :: 0 <= i < |word| ==> 'a' <= word[i] <= 'z' || 'A' <= word[i] <= 'Z'
  }

  lemma LettersExactly(word: string)
    ensures IsLetters(word) <==> OnlyLetters(word)
  {
    LettersAreLetters(word);
    if OnlyLetters(word) {
      LettersAreTokens(word);
    }
  }

  lemma SpelledAsKind(word: string)
    ensures (exists kind :: IsKind(kind) && SpelledAs(word, kind)) <==> IsKind(Upper(word))
  {
    forall kind | IsKind(kind) ensures Upper(word) == kind <==> SpelledAs(word, kind) {
      KindsExactly(kind);
      KindsAreCapital(kind);
      UpperExactly(word, kind);
    }
    hide IsKind, SpelledAs, Upper;
  }

  /** What each complaint says of a line. */
  lemma {:induction false} ComplaintExactly(line: seq<Geo>, isArea: bool, float: Float)
    requires ValidLine(line, float)
    ensures Coordinate(line[0], float) && Coordinate(line[|line| - 1], float)
    ensures var r, open := LineComplaint(line, isArea, float), !Closes(line[0], line[|line| - 1], float);
            && (r == Some(ShortRing) <==> isArea && |line| < 4)
            && (r == Some(OpenRing) <==> isArea && |line| >= 4 && open)
            && (r == Some(ShortLine) <==> !isArea && |line| < 2)
            && (r == Some(OutOfRange) <==>
                  |line| >= (if isArea then 4 else 2) && !(isArea && open) && !ArePlaces(line, float))
            && AboutLine(r)
  {
    PointsExactly(line, float);
    CoordinateIsValid(line[0], float);
    CoordinateIsValid(line[|line| - 1], float);
    ClosesIsSamePlace(line[0], line[|line| - 1], float);
    hide Closes, SamePlace, ArePlaces, Outside, ValidPoint, Coordinate;
  }

  /** The complaint about a geometry is that about its first faulty line. */
  lemma {:induction false} FirstFaultyLine(lines: seq<seq<Geo>>, isArea: bool, float: Float) returns (k: nat)
    requires forall i :: 0 <= i < |lines| ==> ValidLine(lines[i], float)
    ensures k <= |lines|
    ensures forall j :: 0 <= j < k ==> LineComplaint(lines[j], isArea, float) == None
    ensures FirstComplaint(lines, isArea, float) ==
            if k < |lines| then LineComplaint(lines[k], isArea, float) else None
    ensures k < |lines| ==> LineComplaint(lines[k], isArea, float) != None
  {
    hide ValidLine, LineComplaint;
    k := 0;
    if lines != [] && LineComplaint(lines[0], isArea, float) == None {
      k := FirstFaultyLine(lines[1..], isArea, float);
      assert forall j :: 1 <= j < |lines| ==> lines[j] == lines[1..][j - 1];
      k := k + 1;
    }
  }
}
