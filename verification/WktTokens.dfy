/** The tokenizer of the geometry checker: numbers, words, brackets and commas. */
module WktTokens {
  import opened Wrappers
  import opened Words

  predicate IsLetter(c: char) { 'a' <= c <= 'z' || 'A' <= c <= 'Z' }
  predicate IsSign(c: char) { c == '-' || c == '+' }
  predicate IsMark(c: char) { c == '(' || c == ')' || c == ',' }

  function LettersLength(s: string): (n: nat)
    ensures n <= |s|
  {
    if s == "" || !IsLetter(s[0]) then 0 else 1 + LettersLength(s[1..])
  }

  function SignLength(s: string): (n: nat)
    ensures n <= |s| && n <= 1
  {
    if s != "" && IsSign(s[0]) then 1 else 0
  }

  /** `\d+\.?\d*|\.\d+`: zero when neither form starts the text. */
  function MantissaLength(s: string): (n: nat)
    ensures n <= |s|
  {
    var whole := DigitsLength(s);
    if whole > 0 then
      if whole < |s| && s[whole] == '.' then whole + 1 + DigitsLength(s[whole + 1..]) else whole
    else if s != "" && s[0] == '.' && DigitsLength(s[1..]) > 0 then 1 + DigitsLength(s[1..])
    else 0
  }

  /** `([eE][-+]?\d+)?` */
  function ExponentLength(s: string): (n: nat)
    ensures n <= |s|
  {
    if s == "" || (s[0] != 'e' && s[0] != 'E') then 0
    else
      var sign := SignLength(s[1..]);
      var digits := DigitsLength(s[1 + sign..]);
      if digits == 0 then 0 else 1 + sign + digits
  }

  function NumberLength(s: string): (n: nat)
    ensures n <= |s|
  {
    var sign := SignLength(s);
    var mantissa := MantissaLength(s[sign..]);
    if mantissa == 0 then 0 else sign + mantissa + ExponentLength(s[sign + mantissa..])
  }

  /** The length of the token the text starts with; zero when there is none. */
  function TokenLength(s: string): (n: nat)
    ensures n <= |s|
  {
    if NumberLength(s) > 0 then NumberLength(s)
    else if LettersLength(s) > 0 then LettersLength(s)
    else if s != "" && IsMark(s[0]) then 1
    else 0
  }

  predicate IsLetters(t: string) { t != "" && LettersLength(t) == |t| }
  predicate IsToken(t: string) { t != "" && TokenLength(t) == |t| }

  function Prepend(front: seq<string>, back: Option<seq<string>>): Option<seq<string>> {
    match back
    case None => None
    case Some(ts) => Some(front + ts)
  }

  /** All tokens of a text, or nothing where no token starts. */
  function Tokens(s: string): Option<seq<string>>
    decreases |s|
  {
    if s == "" then Some([])
    else
      var body := s[SpacesLength(s)..];
      var n := TokenLength(body);
      if n == 0 then None else Prepend([body[..n]], Tokens(body[n..]))
  }

  /** Read tokens from a moving position until the text is used up. */
  method Tokenize(text: string) returns (r: Option<seq<string>>)
    ensures r == Tokens(text)
  {
    hide SpacesLength, TokenLength;
    var tokens: seq<string> := [];
    var pos := 0;
    assert text[0..] == text;
    PrependNothing(Tokens(text));
    while pos < |text|
      invariant pos <= |text|
      invariant Tokens(text) == Prepend(tokens, Tokens(text[pos..]))
    {
      var start := pos + SpacesLength(text[pos..]);
      assert text[pos..][SpacesLength(text[pos..])..] == text[start..];
      var length := TokenLength(text[start..]);
      if length == 0 {
        return None;
      }
      assert text[start..][length..] == text[start + length..];
      PrependTwice(tokens, [text[start..][..length]], Tokens(text[start + length..]));
      tokens := tokens + [text[start..][..length]];
      pos := start + length;
    }
    assert text[pos..] == "" && tokens + [] == tokens;
    return Some(tokens);
  }

  lemma PrependNothing(r: Option<seq<string>>)
    ensures Prepend([], r) == r
  {
    if r.Some? { assert [] + r.value == r.value; }
  }

  lemma PrependTwice(a: seq<string>, b: seq<string>, r: Option<seq<string>>)
    ensures Prepend(a, Prepend(b, r)) == Prepend(a + b, r)
  {
    if r.Some? {
      assert a + (b + r.value) == a + b + r.value;
    }
  }

  // ---- nothing is lost ----

  function Concat(ts: seq<string>): string {
    if ts == [] then "" else ts[0] + Concat(ts[1..])
  }

  function WithoutSpaces(s: string): string {
    if s == "" then "" else (if IsSpace(s[0]) then "" else [s[0]]) + WithoutSpaces(s[1..])
  }

  lemma {:induction false} WithoutSpacesAppend(a: string, b: string)
    ensures WithoutSpaces(a + b) == WithoutSpaces(a) + WithoutSpaces(b)
  {
    if a == "" {
      assert a + b == b;
    } else {
      assert (a + b)[1..] == a[1..] + b;
      WithoutSpacesAppend(a[1..], b);
    }
  }

  lemma {:induction false} SpacesVanish(s: string)
    ensures WithoutSpaces(s[..SpacesLength(s)]) == ""
  {
    if s != "" && IsSpace(s[0]) {
      SpacesVanish(s[1..]);
      assert s[..SpacesLength(s)][1..] == s[1..][..SpacesLength(s[1..])];
    }
  }

  ghost predicate NoSpaces(s: string) {
    forall i :: 0 <= i < |s| ==> !IsSpace(s[i])
  }

  lemma {:induction false} NoSpacesStay(s: string)
    requires NoSpaces(s)
    ensures WithoutSpaces(s) == s
  {
    if s != "" { NoSpacesStay(s[1..]); }
  }

  lemma {:induction false} LettersAreLetters(s: string)
    ensures forall i :: 0 <= i < LettersLength(s) ==> IsLetter(s[i])
  {
    if s != "" && IsLetter(s[0]) { LettersAreLetters(s[1..]); }
  }

  lemma MantissaHasNoSpaces(s: string)
    ensures NoSpaces(s[..MantissaLength(s)])
  {
    DigitsAreDigits(s);
    var whole := DigitsLength(s);
    if whole > 0 && whole < |s| && s[whole] == '.' {
      DigitsAreDigits(s[whole + 1..]);
    }
    if s != "" { DigitsAreDigits(s[1..]); }
  }

  lemma ExponentHasNoSpaces(s: string)
    ensures NoSpaces(s[..ExponentLength(s)])
  {
    if ExponentLength(s) > 0 {
      DigitsAreDigits(s[1 + SignLength(s[1..])..]);
    }
  }

  lemma NumberHasNoSpaces(s: string)
    ensures NoSpaces(s[..NumberLength(s)])
  {
    hide MantissaLength, ExponentLength;
    var sign := SignLength(s);
    var mantissa := MantissaLength(s[sign..]);
    MantissaHasNoSpaces(s[sign..]);
    ExponentHasNoSpaces(s[sign + mantissa..]);
    var exponent := ExponentLength(s[sign + mantissa..]);
    forall i | 0 <= i < NumberLength(s) ensures !IsSpace(s[i]) {
      if sign <= i < sign + mantissa {
        assert s[i] == s[sign..][..mantissa][i - sign];
      } else if sign + mantissa <= i {
        assert s[i] == s[sign + mantissa..][..exponent][i - sign - mantissa];
      }
    }
  }

  lemma TokenHasNoSpaces(s: string)
    ensures NoSpaces(s[..TokenLength(s)])
  {
    hide NumberLength;
    LettersAreLetters(s);
    NumberHasNoSpaces(s);
  }

  /** The tokens are the text, in order, less its spaces. */
  lemma {:induction false} TokensLoseOnlySpaces(s: string)
    requires Tokens(s).Some?
    ensures Concat(Tokens(s).value) == WithoutSpaces(s)
    decreases |s|
  {
    hide TokenLength, SpacesLength, WithoutSpaces, NoSpaces;
    if s == "" {
      NothingWithoutSpaces();
    } else {
      var body := s[SpacesLength(s)..];
      var n := TokenLength(body);
      TokensLoseOnlySpaces(body[n..]);
      BodyLosesOnlySpaces(s, n);
      var rest := Tokens(body[n..]).value;
      assert ([body[..n]] + rest)[1..] == rest;
    }
  }

  lemma NothingWithoutSpaces()
    ensures WithoutSpaces("") == ""
  {
  }

  lemma BodyLosesOnlySpaces(s: string, n: nat)
    requires n == TokenLength(s[SpacesLength(s)..])
    ensures var body := s[SpacesLength(s)..];
            WithoutSpaces(s) == body[..n] + WithoutSpaces(body[n..])
  {
    hide TokenLength, SpacesLength, WithoutSpaces, NoSpaces;
    var body := s[SpacesLength(s)..];
    SpacesVanish(s);
    TokenHasNoSpaces(body);
    NoSpacesStay(body[..n]);
    WithoutSpacesAppend(s[..SpacesLength(s)], body);
    WithoutSpacesAppend(body[..n], body[n..]);
    assert s == s[..SpacesLength(s)] + body && body == body[..n] + body[n..];
  }

  // ---- tokens written apart are read back ----

  lemma {:induction false} DigitsThenSpace(s: string, rest: string)
    requires rest == "" || IsSpace(rest[0])
    ensures DigitsLength(s + rest) == DigitsLength(s)
  {
    if s == "" {
      assert s + rest == rest;
    } else {
      assert (s + rest)[1..] == s[1..] + rest;
      DigitsThenSpace(s[1..], rest);
    }
  }

  lemma {:induction false} LettersThenSpace(s: string, rest: string)
    requires rest == "" || IsSpace(rest[0])
    ensures LettersLength(s + rest) == LettersLength(s)
  {
    if s == "" {
      assert s + rest == rest;
    } else {
      assert (s + rest)[1..] == s[1..] + rest;
      LettersThenSpace(s[1..], rest);
    }
  }

  lemma MantissaThenSpace(s: string, rest: string)
    requires rest == "" || IsSpace(rest[0])
    ensures MantissaLength(s + rest) == MantissaLength(s)
  {
    var whole := DigitsLength(s);
    DigitsThenSpace(s, rest);
    assert rest != "" ==> !IsDigit(rest[0]) && rest[0] != '.';
    hide IsDigit;
    if whole < |s| {
      assert (s + rest)[whole + 1..] == s[whole + 1..] + rest;
      DigitsThenSpace(s[whole + 1..], rest);
    }
    if s != "" {
      assert (s + rest)[1..] == s[1..] + rest;
      DigitsThenSpace(s[1..], rest);
    } else {
      assert s + rest == rest;
    }
  }

  lemma ExponentThenSpace(s: string, rest: string)
    requires rest == "" || IsSpace(rest[0])
    ensures ExponentLength(s + rest) == ExponentLength(s)
  {
    if s == "" {
      assert s + rest == rest;
    } else {
      assert (s + rest)[1..] == s[1..] + rest;
      var sign := SignLength(s[1..]);
      assert SignLength(s[1..] + rest) == sign;
      assert (s + rest)[1 + sign..] == s[1 + sign..] + rest;
      DigitsThenSpace(s[1 + sign..], rest);
    }
  }

  lemma NumberThenSpace(s: string, rest: string)
    requires rest == "" || IsSpace(rest[0])
    ensures NumberLength(s + rest) == NumberLength(s)
  {
    hide MantissaLength, ExponentLength;
    var sign := SignLength(s);
    assert SignLength(s + rest) == sign;
    assert (s + rest)[sign..] == s[sign..] + rest;
    MantissaThenSpace(s[sign..], rest);
    var mantissa := MantissaLength(s[sign..]);
    assert (s + rest)[sign + mantissa..] == s[sign + mantissa..] + rest;
    ExponentThenSpace(s[sign + mantissa..], rest);
  }

  lemma TokenThenSpace(t: string, rest: string)
    requires IsToken(t) && (rest == "" || IsSpace(rest[0]))
    ensures TokenLength(t + rest) == |t| && SpacesLength(t + rest) == 0
  {
    hide NumberLength, LettersLength;
    NumberThenSpace(t, rest);
    LettersThenSpace(t, rest);
    TokenHasNoSpaces(t);
    assert t[..|t|] == t;
  }

  /** A token, and the rest of the text after it and one space. */
  lemma TokenThenRest(t: string, rest: string)
    requires IsToken(t)
    ensures Tokens(t + " " + rest) == Prepend([t], Tokens(" " + rest))
    ensures Tokens(t) == Some([t])
  {
    hide TokenLength, SpacesLength;
    TokenThenSpace(t, " " + rest);
    TokenThenSpace(t, "");
    assert t + " " + rest == t + (" " + rest) && t + "" == t;
    var text := t + (" " + rest);
    assert text[0..] == text && text[..|t|] == t && text[|t|..] == " " + rest;
    assert t[0..] == t && t[..|t|] == t && t[|t|..] == "";
    assert Tokens("") == Some([]) && [t] + [] == [t];
  }

  /** A space before a token is skipped. */
  lemma SpaceIsSkipped(s: string)
    requires s != "" && SpacesLength(s) == 0
    ensures Tokens(" " + s) == Tokens(s)
  {
    hide TokenLength;
    var text := " " + s;
    assert text[1..] == s && s[0..] == s;
    assert SpacesLength(text) == 1;
  }

  /** Tokens written with a space between them are the tokens read. */
  lemma {:induction false} TokensOfSpaced(ts: seq<string>)
    requires forall i :: 0 <= i < |ts| ==> IsToken(ts[i])
    ensures Tokens(Join(ts)) == Some(ts)
    ensures ts != [] ==> Join(ts) != "" && SpacesLength(Join(ts)) == 0
  {
    hide Tokens, TokenLength, SpacesLength, IsToken;
    if ts == [] {
      NoTokens();
    } else {
      var rest := Join(ts[1..]);
      TokensOfSpaced(ts[1..]);
      TokenThenRest(ts[0], rest);
      FirstTokenStarts(ts[0], rest);
      if |ts| == 1 {
        assert ts == [ts[0]];
      } else {
        SpaceIsSkipped(rest);
        assert [ts[0]] + ts[1..] == ts;
      }
    }
  }

  lemma NoTokens()
    ensures Tokens("") == Some([])
  {
  }

  lemma SpaceStartsNothing(t: string)
    requires t != "" && IsSpace(t[0])
    ensures TokenLength(t) == 0
  {
    assert !IsDigit(t[0]) && !IsLetter(t[0]) && !IsSign(t[0]) && !IsMark(t[0]) && t[0] != '.';
    hide ExponentLength, IsSpace, IsDigit, IsLetter, IsSign, IsMark;
    assert SignLength(t) == 0 && t[0..] == t;
  }

  lemma TokenStarts(t: string)
    requires IsToken(t)
    ensures !IsSpace(t[0])
  {
    hide TokenLength, IsSpace;
    if IsSpace(t[0]) {
      SpaceStartsNothing(t);
      assert false;
    }
  }

  lemma FirstTokenStarts(t: string, rest: string)
    requires IsToken(t)
    ensures t != "" && SpacesLength(t) == 0 && SpacesLength(t + " " + rest) == 0
  {
    TokenStarts(t);
    hide IsToken, IsSpace;
    assert (t + " " + rest)[0] == t[0];
  }
}
