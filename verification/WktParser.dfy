/** The recursive-descent parser of the geometry checker, over a token list popped in place. */
module WktParser {
  import opened Wrappers

  /** A coordinate, as the tokens of its numbers, or a bracketed list. */
  datatype Geo = Point(numbers: seq<string>) | Nested(items: seq<Geo>)

  datatype Problem =
    | ExpectedBracket | NotClosed | UnexpectedSeparator | Unbalanced
    | NotANumber | TooFewNumbers | TooManyNumbers

  /** What `float(token)` gives: a number, an infinity or `nan`; nothing for any other word. */
  datatype Num = Finite(r: real) | PosInf | NegInf | NaN
  type Float = string -> Option<Num>

  predicate IsBreak(t: string) { t == "(" || t == ")" || t == "," }

  /** The tokens up to the next bracket or comma. */
  function NumberRun(ts: seq<string>): (n: nat)
    ensures n <= |ts|
  {
    if ts == [] || IsBreak(ts[0]) then 0 else 1 + NumberRun(ts[1..])
  }

  predicate AllNumbers(ts: seq<string>, float: Float) {
    forall i :: 0 <= i < |ts| ==> float(ts[i]).Some?
  }

  function ParseCoordinate(ts: seq<string>, float: Float): Result<(Geo, seq<string>), Problem> {
    var n := NumberRun(ts);
    if !AllNumbers(ts[..n], float) then Err(NotANumber)
    else if n < 2 then Err(TooFewNumbers)
    else if n > 4 then Err(TooManyNumbers)
    else Ok((Point(ts[..n]), ts[n..]))
  }

  /** An item of a list, and how deeply the list nests because of it. */
  function ParseItem(ts: seq<string>, float: Float): (r: Result<(Geo, nat, seq<string>), Problem>)
    ensures r.Ok? ==> |r.value.2| < |ts|
    decreases |ts|, 1
  {
    if ts != [] && ts[0] == "(" then
      match ParseList(ts, float)
      case Err(e) => Err(e)
      case Ok((item, depth, rest)) => Ok((item, depth + 1, rest))
    else
      match ParseCoordinate(ts, float)
      case Err(e) => Err(e)
      case Ok((item, rest)) => Ok((item, 1, rest))
  }

  /** The items up to the closing bracket, with the depth each implies. */
  function ParseItems(ts: seq<string>, float: Float): (r: Result<(seq<Geo>, seq<nat>, seq<string>), Problem>)
    ensures r.Ok? ==> |r.value.2| < |ts| && |r.value.0| == |r.value.1| > 0
    decreases |ts|, 2
  {
    match ParseItem(ts, float)
    case Err(e) => Err(e)
    case Ok((item, depth, rest)) =>
      if rest == [] then Err(NotClosed)
      else if rest[0] == ")" then Ok(([item], [depth], rest[1..]))
      else if rest[0] != "," then Err(UnexpectedSeparator)
      else
        match ParseItems(rest[1..], float)
        case Err(e) => Err(e)
        case Ok((items, depths, rest')) => Ok(([item] + items, [depth] + depths, rest'))
  }

  predicate AllSame(depths: seq<nat>) {
    forall i, j :: 0 <= i < |depths| && 0 <= j < |depths| ==> depths[i] == depths[j]
  }

  /** A bracketed list of coordinates or of lists, how deeply it nests, and the tokens after it. */
  function ParseList(ts: seq<string>, float: Float): (r: Result<(Geo, nat, seq<string>), Problem>)
    ensures r.Ok? ==> |r.value.2| < |ts|
    decreases |ts|, 0
  {
    if ts == [] || ts[0] != "(" then Err(ExpectedBracket)
    else
      match ParseItems(ts[1..], float)
      case Err(e) => Err(e)
      case Ok((items, depths, rest)) =>
        if !AllSame(depths) then Err(Unbalanced) else Ok((Nested(items), depths[0], rest))
  }

  // ---- the parser object ----

  class TokenList {
    var tokens: seq<string>

    constructor (tokens: seq<string>)
      ensures this.tokens == tokens
    {
      this.tokens := tokens;
    }

    method Pop() returns (t: string)
      requires tokens != []
      modifies this
      ensures [t] + tokens == old(tokens)
    {
      t := tokens[0];
      tokens := tokens[1..];
    }

    method Coordinate(float: Float) returns (r: Result<Geo, Problem>)
      modifies this
      ensures match ParseCoordinate(old(tokens), float)
              case Err(e) => r == Err(e)
              case Ok((item, rest)) => r == Ok(item) && tokens == rest
    {
      ghost var start, run := tokens, NumberRun(tokens);
      var numbers: seq<string> := [];
      while tokens != [] && !IsBreak(tokens[0])
        invariant numbers + tokens == start
        invariant |numbers| + NumberRun(tokens) == run
        invariant AllNumbers(numbers, float)
        decreases |tokens|
      {
        var token := Pop();
        assert start[|numbers|] == token;
        if float(token).None? {
          assert !AllNumbers(start[..run], float) by {
            assert start[..run][|numbers|] == token;
          }
          return Err(NotANumber);
        }
        numbers := numbers + [token];
      }
      assert numbers == start[..run] && tokens == start[run..];
      if |numbers| < 2 {
        return Err(TooFewNumbers);
      }
      if |numbers| > 4 {
        return Err(TooManyNumbers);
      }
      return Ok(Point(numbers));
    }

    method List(float: Float) returns (r: Result<(Geo, nat), Problem>)
      modifies this
      ensures match ParseList(old(tokens), float)
              case Err(e) => r == Err(e)
              case Ok((item, depth, rest)) => r == Ok((item, depth)) && tokens == rest
      decreases |tokens|
    {
      if tokens == [] {
        return Err(ExpectedBracket);
      }
      ghost var start := tokens;
      var open := Pop();
      if open != "(" {
        return Err(ExpectedBracket);
      }
      assert tokens == start[1..];
      var items: seq<Geo>, depths: seq<nat> := [], [];
      var done := false;
      BeforeNothing(ParseItems(tokens, float));
      while !done
        invariant |tokens| < |start|
        invariant |items| == |depths| && (done ==> items != [])
        invariant ParseItems(start[1..], float) ==
                  if done then Ok((items, depths, tokens)) else Before(items, depths, ParseItems(tokens, float))
        decreases !done, |tokens|
      {
        var item: Geo;
        var depth: nat := 1;
        ghost var here := tokens;
        if tokens != [] && tokens[0] == "(" {
          var inner := List(float);
          if inner.Err? {
            return Err(inner.error);
          }
          item, depth := inner.value.0, inner.value.1 + 1;
        } else {
          var point := Coordinate(float);
          if point.Err? {
            return Err(point.error);
          }
          item := point.value;
        }
        assert ParseItem(here, float) == Ok((item, depth, tokens));
        ghost var rest := tokens;
        if tokens == [] {
          return Err(NotClosed);
        }
        var separator := Pop();
        assert tokens == rest[1..] && separator == rest[0];
        if separator != ")" && separator != "," {
          return Err(UnexpectedSeparator);
        }
        BeforeStep(items, depths, item, depth, ParseItems(tokens, float));
        items, depths := items + [item], depths + [depth];
        done := separator == ")";
      }
      DistinctDepths(depths);
      if |DepthSet(depths)| > 1 {
        return Err(Unbalanced);
      }
      return Ok((Nested(items), depths[0]));
    }
  }

  type Items = Result<(seq<Geo>, seq<nat>, seq<string>), Problem>

  /** Items already read, before those still to come. */
  function Before(items: seq<Geo>, depths: seq<nat>, r: Items): Items {
    match r
    case Err(e) => Err(e)
    case Ok((items', depths', rest)) => Ok((items + items', depths + depths', rest))
  }

  lemma BeforeNothing(r: Items)
    ensures Before([], [], r) == r
  {
    if r.Ok? {
      assert [] + r.value.0 == r.value.0 && [] + r.value.1 == r.value.1;
    }
  }

  lemma BeforeStep(items: seq<Geo>, depths: seq<nat>, item: Geo, depth: nat, r: Items)
    ensures Before(items, depths, Before([item], [depth], r)) == Before(items + [item], depths + [depth], r)
  {
    if r.Ok? {
      assert items + ([item] + r.value.0) == items + [item] + r.value.0;
      assert depths + ([depth] + r.value.1) == depths + [depth] + r.value.1;
    }
  }

  function DepthSet(depths: seq<nat>): set<nat> {
    set d | d in depths
  }

  lemma DistinctDepths(depths: seq<nat>)
    requires depths != []
    ensures |DepthSet(depths)| > 1 <==> !AllSame(depths)
  {
    var distinct := DepthSet(depths);
    assert depths[0] in distinct;
    if AllSame(depths) {
      assert distinct == {depths[0]};
      assert |distinct| == 1;
    } else {
      var i, j :| 0 <= i < |depths| && 0 <= j < |depths| && depths[i] != depths[j];
      assert {depths[i], depths[j]} <= distinct;
      SubsetSize({depths[i], depths[j]}, distinct);
      assert |{depths[i], depths[j]}| == 2;
    }
  }

  lemma {:induction false} SubsetSize<T>(a: set<T>, b: set<T>)
    requires a <= b
    ensures |a| <= |b|
  {
    if a != {} {
      var x :| x in a;
      SubsetSize(a - {x}, b - {x});
      assert |b| == |b - {x}| + 1;
    }
  }

  // ---- the grammar ----

  function PrintItems(items: seq<Geo>): seq<string> {
    if items == [] then []
    else if |items| == 1 then Print(items[0])
    else Print(items[0]) + [","] + PrintItems(items[1..])
  }

  function Print(g: Geo): seq<string> {
    match g
    case Point(numbers) => numbers
    case Nested(items) => ["("] + PrintItems(items) + [")"]
  }

  predicate ValidPoint(g: Geo, float: Float) {
    g.Point? && 2 <= |g.numbers| <= 4 && AllNumbers(g.numbers, float)
    && forall i :: 0 <= i < |g.numbers| ==> !IsBreak(g.numbers[i])
  }

  /** A list of points has depth one, and a list of lists of one depth is one deeper. */
  predicate Uniform(g: Geo, depth: nat, float: Float) {
    && g.Nested? && g.items != [] && depth >= 1
    && forall i :: 0 <= i < |g.items| ==>
         if depth == 1 then ValidPoint(g.items[i], float) else Uniform(g.items[i], depth - 1, float)
  }

  /** An item that makes the list around it `depth` deep. */
  predicate ItemOf(g: Geo, depth: nat, float: Float) {
    if depth == 1 then ValidPoint(g, float) else depth >= 2 && Uniform(g, depth - 1, float)
  }

  /** An item is followed by a bracket, a comma, or nothing. */
  predicate Ends(ts: seq<string>) {
    ts == [] || IsBreak(ts[0])
  }

  lemma {:induction false} NumberRunExact(ts: seq<string>)
    ensures forall i :: 0 <= i < NumberRun(ts) ==> !IsBreak(ts[i])
    ensures Ends(ts[NumberRun(ts)..])
  {
    if ts != [] && !IsBreak(ts[0]) {
      NumberRunExact(ts[1..]);
      assert ts[1..][NumberRun(ts[1..])..] == ts[NumberRun(ts)..];
    }
  }

  lemma {:induction false} NumberRunOf(numbers: seq<string>, rest: seq<string>)
    requires Ends(rest) && forall i :: 0 <= i < |numbers| ==> !IsBreak(numbers[i])
    ensures NumberRun(numbers + rest) == |numbers|
  {
    if numbers == [] {
      assert numbers + rest == rest;
    } else {
      assert (numbers + rest)[1..] == numbers[1..] + rest;
      NumberRunOf(numbers[1..], rest);
    }
  }

  /** What is parsed was printed: an accepted list is the printed form of its result, before the tokens left over. */
  lemma {:induction false} ParsedWasPrinted(ts: seq<string>, float: Float)
    ensures match ParseList(ts, float)
            case Err(_) => true
            case Ok((g, depth, rest)) => Uniform(g, depth, float) && ts == Print(g) + rest
    decreases |ts|, 0
  {
    if ts != [] && ts[0] == "(" {
      ItemsWerePrinted(ts[1..], float);
      if ParseItems(ts[1..], float).Ok? {
        var (items, depths, rest) := ParseItems(ts[1..], float).value;
        hide ParseItems, PrintItems, ValidPoint;
        assert ts == ["("] + ts[1..];
        if AllSame(depths) {
          ItemsNest(items, depths, float);
          assert ["("] + (PrintItems(items) + [")"] + rest) == Print(Nested(items)) + rest;
        }
      }
    }
  }

  /** Items of one depth make a list of that depth. */
  lemma ItemsNest(items: seq<Geo>, depths: seq<nat>, float: Float)
    requires |items| == |depths| > 0 && AllSame(depths)
    requires forall i :: 0 <= i < |items| ==> ItemOf(items[i], depths[i], float)
    ensures Uniform(Nested(items), depths[0], float)
  {
    forall i | 0 <= i < |items| ensures ItemOf(items[i], depths[0], float) {
      assert depths[i] == depths[0];
    }
  }

  lemma {:induction false} ItemWasPrinted(ts: seq<string>, float: Float)
    ensures match ParseItem(ts, float)
            case Err(_) => true
            case Ok((g, depth, rest)) => ItemOf(g, depth, float) && ts == Print(g) + rest
    decreases |ts|, 1
  {
    if ts != [] && ts[0] == "(" {
      ParsedWasPrinted(ts, float);
    } else {
      NumberRunExact(ts);
      assert ts == ts[..NumberRun(ts)] + ts[NumberRun(ts)..];
    }
  }

  lemma PrintOneMore(ts: seq<string>, item: Geo, items: seq<Geo>, rest: seq<string>, rest': seq<string>)
    requires ts == Print(item) + rest && rest != [] && rest[0] == "," && items != []
    requires rest[1..] == PrintItems(items) + [")"] + rest'
    ensures ts == PrintItems([item] + items) + [")"] + rest'
  {
    hide Print;
    assert rest == [","] + rest[1..];
    assert ([item] + items)[1..] == items && ([item] + items)[0] == item;
    calc {
      ts;
      Print(item) + ([","] + (PrintItems(items) + [")"] + rest'));
      (Print(item) + [","] + PrintItems(items)) + [")"] + rest';
    }
  }

  lemma {:induction false} ItemsWerePrinted(ts: seq<string>, float: Float)
    ensures match ParseItems(ts, float)
            case Err(_) => true
            case Ok((items, depths, rest)) =>
              && (forall i :: 0 <= i < |items| ==> ItemOf(items[i], depths[i], float))
              && ts == PrintItems(items) + [")"] + rest
    decreases |ts|, 2
  {
    ItemWasPrinted(ts, float);
    if ParseItem(ts, float).Ok? {
      var (item, depth, rest) := ParseItem(ts, float).value;
      if rest != [] && rest[0] == ")" {
        assert rest == [")"] + rest[1..];
        assert ts == Print(item) + ([")"] + rest[1..]);
      } else if rest != [] && rest[0] == "," {
        ItemsWerePrinted(rest[1..], float);
        if ParseItems(rest[1..], float).Ok? {
          var (items, depths, rest') := ParseItems(rest[1..], float).value;
          PrintOneMore(ts, item, items, rest, rest');
        }
      }
    }
  }

  /** What is printed is parsed: a uniformly nested list is read back whole, with its depth, and nothing more. */
  lemma {:induction false} PrintedIsParsed(g: Geo, depth: nat, rest: seq<string>, float: Float)
    requires Uniform(g, depth, float)
    ensures ParseList(Print(g) + rest, float) == Ok((g, depth, rest))
    decreases g, 0
  {
    var ts := Print(g) + rest;
    assert ts[1..] == PrintItems(g.items) + [")"] + rest;
    PrintedItemsAreParsed(g.items, depth, rest, float);
  }

  lemma {:induction false} PrintedItemIsParsed(g: Geo, depth: nat, rest: seq<string>, float: Float)
    requires ItemOf(g, depth, float) && Ends(rest)
    ensures ParseItem(Print(g) + rest, float) == Ok((g, depth, rest))
    decreases g, 1
  {
    var ts := Print(g) + rest;
    if depth == 1 {
      NumberRunOf(g.numbers, rest);
      assert ts[..|g.numbers|] == g.numbers && ts[|g.numbers|..] == rest;
      assert ts[0] == g.numbers[0];
    } else {
      PrintedIsParsed(g, depth - 1, rest, float);
      assert ts[0] == "(";
    }
  }

  function Copies(depth: nat, n: nat): seq<nat> {
    seq(n, i requires 0 <= i < n => depth)
  }

  lemma {:induction false} PrintedItemsAreParsed(items: seq<Geo>, depth: nat, rest: seq<string>, float: Float)
    requires items != [] && forall i :: 0 <= i < |items| ==> ItemOf(items[i], depth, float)
    ensures ParseItems(PrintItems(items) + [")"] + rest, float)
         == Ok((items, Copies(depth, |items|), rest))
    decreases items, 0
  {
    var ts := PrintItems(items) + [")"] + rest;
    hide Print, ParseItem, Uniform, ValidPoint;
    if |items| == 1 {
      PrintedItemIsParsed(items[0], depth, [")"] + rest, float);
      assert ts == Print(items[0]) + ([")"] + rest);
      assert ([")"] + rest)[1..] == rest;
      assert items == [items[0]] && Copies(depth, 1) == [depth];
    } else {
      var more := PrintItems(items[1..]) + [")"] + rest;
      PrintedItemIsParsed(items[0], depth, [","] + more, float);
      assert ts == Print(items[0]) + ([","] + more);
      assert ([","] + more)[1..] == more;
      PrintedItemsAreParsed(items[1..], depth, rest, float);
      assert [items[0]] + items[1..] == items && [depth] + Copies(depth, |items| - 1) == Copies(depth, |items|);
    }
  }
}
