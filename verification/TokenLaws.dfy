/** Which words the tokenizer reads: its regular expressions, and how a text is cut by them. */
module TokenLaws {
  import opened Wrappers
  import opened Words
  import opened WktTokens

  ghost predicate IsSignOrNone(t: string) {
    t == "" || t == "+" || t == "-"
  }

  /** `\d+\.?\d*|\.\d+` */
  ghost predicate IsMantissa(t: string) {
    exists a, b :: AllDigits(a) && AllDigits(b) &&
      ((a != "" && t == a) || ((a != "" || b != "") && t == a + "." + b))
  }

  /** `([eE][-+]?\d+)?` */
  ghost predicate IsExponent(t: string) {
    t == "" || exists mark, sign, digits ::
      && (mark == "e" || mark == "E") && IsSignOrNone(sign) && AllDigits(digits) && digits != ""
      && t == mark + sign + digits
  }

  /** `[-+]?(?:\d+\.?\d*|\.\d+)(?:[eE][-+]?\d+)?` */
  ghost predicate IsNumber(t: string) {
    exists sign, mantissa, exponent ::
      IsSignOrNone(sign) && IsMantissa(mantissa) && IsExponent(exponent) && t == sign + mantissa + exponent
  }

  // ---- runs of digits ----

  lemma {:induction false} DigitsAtLeast(s: string, a: string)
    requires AllDigits(a) && a <= s
    ensures |a| <= DigitsLength(s)
    ensures |a| == |s| || !IsDigit(s[|a|]) ==> DigitsLength(s) == |a|
  {
    if a != "" {
      assert a[0] == s[0] && a[1..] <= s[1..];
      DigitsAtLeast(s[1..], a[1..]);
    }
  }

  lemma DigitRun(s: string)
    ensures AllDigits(s[..DigitsLength(s)]) && s[..DigitsLength(s)] <= s
    ensures DigitsLength(s) < |s| ==> !IsDigit(s[DigitsLength(s)])
  {
    DigitsAreDigits(s);
    DigitRunEnds(s);
  }

  lemma {:induction false} DigitRunEnds(s: string)
    ensures DigitsLength(s) < |s| ==> !IsDigit(s[DigitsLength(s)])
  {
    if s != "" && IsDigit(s[0]) {
      DigitRunEnds(s[1..]);
    }
  }

  lemma InThree(s: string, i: nat, j: nat, k: nat)
    requires i + j + k <= |s|
    ensures s[..i] + s[i..][..j] + s[i + j..][..k] == s[..i + j + k]
  {
  }

  // ---- what is read is a number ----

  lemma MantissaIsRead(s: string)
    requires MantissaLength(s) > 0
    ensures IsMantissa(s[..MantissaLength(s)])
  {
    var whole := DigitsLength(s);
    DigitRun(s);
    var a := s[..whole];
    if whole < |s| && s[whole] == '.' {
      var rest := s[whole + 1..];
      DigitRun(rest);
      var b := rest[..DigitsLength(rest)];
      assert s[..whole + 1 + |b|] == a + "." + b;
    }
  }

  lemma SignIsOne(s: string)
    ensures IsSignOrNone(s[..SignLength(s)])
  {
  }

  lemma ExponentIsRead(s: string)
    ensures IsExponent(s[..ExponentLength(s)])
  {
    var n := ExponentLength(s);
    if n > 0 {
      var sign := SignLength(s[1..]);
      var rest := s[1 + sign..];
      DigitRun(rest);
      var mark, plus, digits := s[..1], s[1..1 + sign], rest[..DigitsLength(rest)];
      InThree(s, 1, sign, DigitsLength(rest));
      assert mark == [s[0]];
      SignIsOne(s[1..]);
      assert plus == s[1..][..sign];
      hide IsSignOrNone;
    }
  }

  lemma NumberInParts(s: string)
    ensures var sign := SignLength(s);
            var mantissa := MantissaLength(s[sign..]);
            NumberLength(s) == if mantissa == 0 then 0 else sign + mantissa + ExponentLength(s[sign + mantissa..])
  {
  }

  lemma NumberIsRead(s: string)
    requires NumberLength(s) > 0
    ensures IsNumber(s[..NumberLength(s)])
  {
    hide *;
    var sign := SignLength(s);
    var mantissa := MantissaLength(s[sign..]);
    NumberInParts(s);
    SignIsOne(s);
    MantissaIsRead(s[sign..]);
    ExponentIsRead(s[sign + mantissa..]);
    var exponent := ExponentLength(s[sign + mantissa..]);
    Recomposed(s[..sign], s[sign..][..mantissa], s[sign + mantissa..][..exponent]);
    InThree(s, sign, mantissa, exponent);
  }

  lemma Recomposed(sign: string, mantissa: string, exponent: string)
    requires IsSignOrNone(sign) && IsMantissa(mantissa) && IsExponent(exponent)
    ensures IsNumber(sign + mantissa + exponent)
  {
    hide IsSignOrNone, IsMantissa, IsExponent;
  }

  // ---- and no longer one is there ----

  /** A mantissa the text starts with is not longer than the one read, and it is that one when neither a digit nor a
      point follows. */
  lemma MantissaIsLongest(s: string, t: string)
    requires IsMantissa(t) && t <= s
    ensures 0 < |t| <= MantissaLength(s)
    ensures |t| < |s| && !IsDigit(s[|t|]) && s[|t|] != '.' ==> MantissaLength(s) == |t|
  {
    var a, b :| AllDigits(a) && AllDigits(b) && ((a != "" && t == a) || ((a != "" || b != "") && t == a + "." + b));
    if t == a && a != "" {
      DigitsAtLeast(s, a);
    } else {
      assert t == a + "." + b && s[|a|] == '.' && a <= s;
      DigitsAtLeast(s, a);
      var rest := s[|a| + 1..];
      assert b <= rest;
      DigitsAtLeast(rest, b);
    }
  }

  lemma ExponentIsLongest(s: string, t: string)
    requires IsExponent(t) && t <= s
    ensures |t| <= ExponentLength(s)
  {
    if t != "" {
      var mark, sign, digits :| (mark == "e" || mark == "E") && IsSignOrNone(sign) && AllDigits(digits) && digits != ""
                                && t == mark + sign + digits;
      assert s[0] == mark[0];
      var rest := s[1..];
      assert sign + digits <= rest;
      if sign == "" {
        assert rest[0] == digits[0];
      } else {
        assert rest[0] == sign[0];
      }
      assert SignLength(rest) == |sign|;
      assert digits <= s[1 + |sign|..];
      DigitsAtLeast(s[1 + |sign|..], digits);
    }
  }

  lemma NumberIsLongest(s: string, t: string)
    requires IsNumber(t) && t <= s
    ensures 0 < |t| <= NumberLength(s)
  {
    hide IsSignOrNone, IsMantissa, IsExponent, NumberLength, SignLength, MantissaLength, ExponentLength;
    var sign, mantissa, exponent :|
      IsSignOrNone(sign) && IsMantissa(mantissa) && IsExponent(exponent) && t == sign + mantissa + exponent;
    MantissaStarts(mantissa);
    SignIsRead(s, sign, mantissa, exponent);
    TailIsLongest(s[|sign|..], mantissa, exponent);
    LengthsAdd(s, sign, mantissa + exponent);
  }

  lemma LengthsAdd(s: string, sign: string, tail: string)
    requires |sign| == SignLength(s) && MantissaLength(s[|sign|..]) > 0
    requires |tail| <= MantissaLength(s[|sign|..]) + ExponentLength(s[|sign|..][MantissaLength(s[|sign|..])..])
    ensures |sign| + |tail| <= NumberLength(s)
  {
    hide SignLength, MantissaLength, ExponentLength;
    var mantissa := MantissaLength(s[|sign|..]);
    assert s[|sign|..][mantissa..] == s[|sign| + mantissa..];
  }

  lemma SignIsRead(s: string, sign: string, mantissa: string, exponent: string)
    requires IsSignOrNone(sign) && mantissa != "" && !IsSign(mantissa[0]) && sign + mantissa + exponent <= s
    ensures SignLength(s) == |sign| && mantissa + exponent <= s[|sign|..]
  {
    var t := sign + mantissa + exponent;
    assert s[0] == t[0];
    if sign == "" {
      assert t[0] == mantissa[0];
    } else {
      assert t[0] == sign[0];
    }
    assert t == s[..|t|] && mantissa + exponent == t[|sign|..];
  }

  lemma TailIsLongest(rest: string, mantissa: string, exponent: string)
    requires IsMantissa(mantissa) && IsExponent(exponent) && mantissa + exponent <= rest
    ensures 0 < |mantissa| <= MantissaLength(rest)
    ensures |mantissa + exponent| <= MantissaLength(rest) + ExponentLength(rest[MantissaLength(rest)..])
  {
    ExponentStarts(exponent);
    hide MantissaLength, ExponentLength, IsMantissa, IsExponent, IsDigit;
    var t := mantissa + exponent;
    assert t == rest[..|t|] && mantissa == t[..|mantissa|] && exponent == t[|mantissa|..];
    MantissaIsLongest(rest, mantissa);
    if exponent != "" {
      assert rest[|mantissa|] == exponent[0];
      assert exponent <= rest[|mantissa|..];
      ExponentIsLongest(rest[|mantissa|..], exponent);
    }
  }

  lemma MantissaStarts(t: string)
    requires IsMantissa(t)
    ensures t != "" && !IsSign(t[0])
  {
    var a, b :| AllDigits(a) && AllDigits(b) && ((a != "" && t == a) || ((a != "" || b != "") && t == a + "." + b));
    if a != "" {
      assert t[0] == a[0] && IsDigit(a[0]);
    } else {
      assert t[0] == '.';
    }
  }

  lemma ExponentStarts(t: string)
    requires IsExponent(t)
    ensures t != "" ==> !IsDigit(t[0]) && t[0] != '.'
  {
  }

  /** The number read is the longest a text starts with: it matches the expression, and no longer start does. */
  lemma {:induction false} NumberExactly(s: string)
    ensures NumberLength(s) > 0 ==> IsNumber(s[..NumberLength(s)])
    ensures forall n :: 0 <= n <= |s| && IsNumber(s[..n]) ==> 0 < n <= NumberLength(s)
  {
    hide NumberLength, IsNumber;
    if NumberLength(s) > 0 {
      NumberIsRead(s);
    }
    forall n | 0 <= n <= |s| && IsNumber(s[..n]) ensures 0 < n <= NumberLength(s) {
      NumberIsLongest(s, s[..n]);
    }
  }

  // ---- a text cut into tokens ----

  ghost predicate NoNumber(s: string) {
    forall n :: 0 <= n <= |s| ==> !IsNumber(s[..n])
  }

  ghost predicate LongestNumber(s: string, t: string) {
    t <= s && IsNumber(t) && forall n :: |t| < n <= |s| ==> !IsNumber(s[..n])
  }

  ghost predicate LongestWord(s: string, t: string) {
    && t <= s && t != "" && (forall i :: 0 <= i < |t| ==> IsLetter(t[i])) && (|t| < |s| ==> !IsLetter(s[|t|]))
  }

  ghost predicate Mark(s: string, t: string) {
    t <= s && (t == "(" || t == ")" || t == ",")
  }

  /** The token a text starts with: the longest number, else the longest word of letters, else a bracket or comma. */
  ghost predicate NextToken(s: string, t: string) {
    LongestNumber(s, t) || (NoNumber(s) && (LongestWord(s, t) || Mark(s, t)))
  }

  lemma {:induction false} WordExactly(s: string, t: string)
    ensures LongestWord(s, t) <==> t == s[..LettersLength(s)] && t != ""
  {
    LettersAreLetters(s);
    LettersEnd(s);
    if LongestWord(s, t) {
      LettersAtLeast(s, t);
    }
  }

  lemma {:induction false} LettersEnd(s: string)
    ensures LettersLength(s) < |s| ==> !IsLetter(s[LettersLength(s)])
  {
    if s != "" && IsLetter(s[0]) {
      LettersEnd(s[1..]);
    }
  }

  lemma {:induction false} LettersAtLeast(s: string, t: string)
    requires t <= s && (forall i :: 0 <= i < |t| ==> IsLetter(t[i])) && (|t| < |s| ==> !IsLetter(s[|t|]))
    ensures LettersLength(s) == |t|
  {
    if t != "" {
      assert t[0] == s[0] && t[1..] <= s[1..];
      LettersAtLeast(s[1..], t[1..]);
    }
  }

  lemma NumbersExactly(s: string)
    ensures NoNumber(s) <==> NumberLength(s) == 0
    ensures forall t :: LongestNumber(s, t) <==> NumberLength(s) > 0 && t == s[..NumberLength(s)]
  {
    NumberExactly(s);
    hide NumberLength, IsNumber;
    var n := NumberLength(s);
    forall t ensures LongestNumber(s, t) <==> n > 0 && t == s[..n] {
      if t <= s {
        assert t == s[..|t|];
      }
    }
  }

  lemma MarkExactly(s: string, t: string)
    ensures Mark(s, t) <==> s != "" && IsMark(s[0]) && t == s[..1]
  {
    if Mark(s, t) {
      assert s[0] == t[0];
    }
  }

  /** The token read is the token the text starts with. */
  lemma {:induction false} TokenExactly(s: string, t: string)
    ensures NextToken(s, t) <==> TokenLength(s) > 0 && t == s[..TokenLength(s)]
  {
    NumbersExactly(s);
    WordExactly(s, t);
    MarkExactly(s, t);
    assert s != "" && IsMark(s[0]) ==> LettersLength(s) == 0;
    hide NumberLength, LettersLength, NoNumber, LongestNumber, LongestWord, Mark, IsMark;
  }

  ghost predicate AllSpaces(s: string) {
    forall i :: 0 <= i < |s| ==> IsSpace(s[i])
  }

  /** After `k` spaces comes the token. */
  ghost predicate TokenAt(s: string, k: nat, t: string) {
    k + |t| <= |s| && AllSpaces(s[..k]) && NextToken(s[k..], t)
  }

  /** Spaces, a token, spaces, a token, and so on to the end. */
  ghost predicate CutInto(s: string, ts: seq<string>)
    decreases |ts|
  {
    if ts == [] then s == ""
    else exists k: nat :: TokenAt(s, k, ts[0]) && CutInto(s[k + |ts[0]|..], ts[1..])
  }

  /** The spaces and the token are those read. */
  lemma TokenAtExactly(s: string, k: nat, t: string)
    ensures TokenAt(s, k, t) <==>
            k == SpacesLength(s) && TokenLength(s[k..]) > 0 && t == s[k..][..TokenLength(s[k..])]
  {
    SpacesAreSpaces(s);
    if k <= |s| {
      TokenExactly(s[k..], t);
      hide NextToken, TokenLength;
      if TokenAt(s, k, t) {
        if IsSpace(s[k..][0]) {
          SpaceStartsNothing(s[k..]);
        }
        forall i | 0 <= i < k ensures IsSpace(s[i]) {
          assert s[i] == s[..k][i];
        }
        SpacesEnd(s, k);
      }
    }
  }

  /** A text is read as some tokens exactly when they are what it is cut into. */
  lemma {:induction false} TokensExactly(s: string, ts: seq<string>)
    ensures Tokens(s) == Some(ts) <==> CutInto(s, ts)
    decreases |s|
  {
    hide TokenAt, TokenLength, SpacesLength;
    var body := s[SpacesLength(s)..];
    var n := TokenLength(body);
    if ts == [] {
      assert s != "" ==> Tokens(s) != Some([]);
    } else {
      CutOneMore(s, ts);
      if s == "" {
        assert body == "" && n == 0;
      } else {
        assert ts == [ts[0]] + ts[1..];
        hide CutInto;
        if n > 0 {
          TokensExactly(body[n..], ts[1..]);
        }
      }
    }
  }

  lemma CutUnfolds(s: string, ts: seq<string>)
    requires ts != []
    ensures CutInto(s, ts) <==>
            exists k: nat :: k + |ts[0]| <= |s| && TokenAt(s, k, ts[0]) && CutInto(s[k + |ts[0]|..], ts[1..])
  {
  }

  lemma CutOneMore(s: string, ts: seq<string>)
    requires ts != []
    ensures var body := s[SpacesLength(s)..];
            var n := TokenLength(body);
            CutInto(s, ts) <==> n > 0 && ts[0] == body[..n] && CutInto(body[n..], ts[1..])
  {
    hide *;
    var k := SpacesLength(s);
    var n := TokenLength(s[k..]);
    assert s[k + n..] == s[k..][n..] && |s[k..][..n]| == n;
    CutUnfolds(s, ts);
    if n > 0 && ts[0] == s[k..][..n] {
      TokenAtExactly(s, k, ts[0]);
    }
    if j: nat :| j + |ts[0]| <= |s| && TokenAt(s, j, ts[0]) && CutInto(s[j + |ts[0]|..], ts[1..]) {
      TokenAtExactly(s, j, ts[0]);
    }
  }
}
