/** Splitting text into words and joining them again, as `str.split` and `" ".join` do. */
module Words {

  predicate IsSpace(c: char) {
    var n := c as int;
    || 9 <= n <= 13 || 28 <= n <= 32 || n == 0x85 || n == 0xA0 || n == 0x1680
    || 0x2000 <= n <= 0x200A || n == 0x2028 || n == 0x2029 || n == 0x202F || n == 0x205F || n == 0x3000
  }

  /** The spaces by code point: the tab, the line breaks, the separators and the blank of ASCII, the next line, and the
      blanks of Unicode. */
  lemma {:induction false} SpacesListed(c: char)
    ensures IsSpace(c) <==> c as int in [
              0x09, 0x0A, 0x0B, 0x0C, 0x0D, 0x1C, 0x1D, 0x1E, 0x1F, 0x20, 0x85, 0xA0, 0x1680,
              0x2000, 0x2001, 0x2002, 0x2003, 0x2004, 0x2005, 0x2006, 0x2007, 0x2008, 0x2009, 0x200A,
              0x2028, 0x2029, 0x202F, 0x205F, 0x3000]
  {
  }

  /** The maximal runs of characters that are not spaces. */
  function Split(s: string): (ws: seq<string>)
    ensures s != "" && !IsSpace(s[0]) ==> ws != []
  {
    if s == "" then []
    else if IsSpace(s[0]) then Split(s[1..])
    else if |s| > 1 && !IsSpace(s[1]) then
      var ws := Split(s[1..]);
      [[s[0]] + ws[0]] + ws[1..]
    else [[s[0]]] + Split(s[1..])
  }

  function Join(ws: seq<string>): string {
    if ws == [] then "" else if |ws| == 1 then ws[0] else ws[0] + " " + Join(ws[1..])
  }

  /** `str.strip`. */
  function Trim(s: string): string
    decreases |s|
  {
    if s == "" then ""
    else if IsSpace(s[0]) then Trim(s[1..])
    else if IsSpace(s[|s| - 1]) then Trim(s[..|s| - 1])
    else s
  }

  function LowerChar(c: char): char {
    if 'A' <= c <= 'Z' then (c as int + 32) as char else c
  }

  /** `str.lower`, on ASCII letters. */
  function Lower(s: string): (l: string)
    ensures |l| == |s|
  {
    seq(|s|, i requires 0 <= i < |s| => LowerChar(s[i]))
  }

  /** The capitals become the small letters, in the order of the alphabet, and nothing else changes. */
  lemma {:induction false} LowerSpells(s: string, i: nat)
    requires i < |s|
    ensures 'A' <= s[i] <= 'Z' ==>
              'a' <= Lower(s)[i] <= 'z' && Lower(s)[i] as int - 'a' as int == s[i] as int - 'A' as int
    ensures !('A' <= s[i] <= 'Z') ==> Lower(s)[i] == s[i]
  {
  }

  predicate IsWord(w: string) {
    w != "" && forall i :: 0 <= i < |w| ==> !IsSpace(w[i])
  }

  ghost predicate AllWords(ws: seq<string>) {
    forall i :: 0 <= i < |ws| ==> IsWord(ws[i])
  }

  lemma {:induction false} SplitGivesWords(s: string)
    ensures AllWords(Split(s))
  {
    if s != "" {
      SplitGivesWords(s[1..]);
    }
  }

  predicate StartsInWord(s: string) {
    s != "" && !IsSpace(s[0])
  }

  predicate EndsInWord(s: string) {
    s != "" && !IsSpace(s[|s| - 1])
  }

  /** Concatenation joins two words into one exactly when both sides touch without a space. */
  lemma {:induction false} SplitConcat(a: string, b: string)
    ensures |Split(a + b)| == |Split(a)| + |Split(b)| - if EndsInWord(a) && StartsInWord(b) then 1 else 0
  {
    if a == "" {
      assert a + b == b;
    } else {
      assert (a + b)[1..] == a[1..] + b;
      SplitConcat(a[1..], b);
    }
  }

  lemma {:induction false} SplitWordThenSpace(w: string, rest: string)
    requires IsWord(w) && (rest == "" || IsSpace(rest[0]))
    ensures Split(w + rest) == [w] + Split(rest)
  {
    assert (w + rest)[1..] == w[1..] + rest;
    if |w| == 1 {
      assert w == [w[0]];
      assert w[1..] + rest == rest;
    } else {
      SplitWordThenSpace(w[1..], rest);
      assert w == [w[0]] + w[1..];
    }
  }

  /** A space ends a word: the words of a text are those before any of its spaces, and those after it. */
  lemma {:induction false} SplitAtSpace(a: string, c: char, b: string)
    requires IsSpace(c)
    ensures Split(a + [c] + b) == Split(a) + Split(b)
  {
    if a == "" {
      assert a + [c] + b == [c] + b && ([c] + b)[1..] == b;
    } else {
      assert (a + [c] + b)[1..] == a[1..] + [c] + b;
      SplitAtSpace(a[1..], c, b);
      if |a| == 1 {
        assert a[1..] + [c] + b == [c] + b;
      }
    }
  }

  lemma TrimUnfolds(s: string)
    ensures s == "" ==> Trim(s) == s
    ensures s != "" && IsSpace(s[0]) ==> Trim(s) == Trim(s[1..])
    ensures s != "" && !IsSpace(s[0]) && IsSpace(s[|s| - 1]) ==> Trim(s) == Trim(s[..|s| - 1])
    ensures s != "" && !IsSpace(s[0]) && !IsSpace(s[|s| - 1]) ==> Trim(s) == s
  {
    hide IsSpace;
  }

  /** Stripping takes off the spaces at both ends, and nothing else. */
  lemma {:induction false} TrimStrips(s: string) returns (a: string, b: string)
    ensures s == a + Trim(s) + b
    ensures (forall i :: 0 <= i < |a| ==> IsSpace(a[i])) && (forall i :: 0 <= i < |b| ==> IsSpace(b[i]))
    ensures Trim(s) != "" ==> StartsInWord(Trim(s)) && EndsInWord(Trim(s))
    decreases |s|
  {
    hide IsSpace, Trim;
    TrimUnfolds(s);
    a, b := "", "";
    if s != "" && IsSpace(s[0]) {
      a, b := TrimStrips(s[1..]);
      LongerFront(s[0], a, Trim(s), b);
      assert s == [s[0]] + s[1..];
      a := [s[0]] + a;
    } else if s != "" && IsSpace(s[|s| - 1]) {
      a, b := TrimStrips(s[..|s| - 1]);
      assert s == s[..|s| - 1] + [s[|s| - 1]];
      b := b + [s[|s| - 1]];
    }
  }

  lemma LongerFront(c: char, a: string, middle: string, b: string)
    ensures [c] + (a + middle + b) == [c] + a + middle + b
  {
  }

  /** Stripping keeps the words. */
  lemma {:induction false} SplitTrim(s: string)
    ensures Split(Trim(s)) == Split(s)
    decreases |s|
  {
    if s != "" && IsSpace(s[0]) {
      SplitTrim(s[1..]);
    } else if s != "" && IsSpace(s[|s| - 1]) {
      var n := |s| - 1;
      SplitTrim(s[..n]);
      SplitAtSpace(s[..n], s[n], "");
      assert s == s[..n] + [s[n]] + "";
    }
  }

  /** Splitting undoes joining. */
  lemma {:induction false} SplitJoin(ws: seq<string>)
    requires AllWords(ws)
    ensures Split(Join(ws)) == ws
  {
    if ws == [] {
    } else if |ws| == 1 {
      SplitWordThenSpace(ws[0], "");
      assert ws[0] + "" == ws[0] && ws == [ws[0]];
    } else {
      var rest := Join(ws[1..]);
      SplitJoin(ws[1..]);
      SplitWordThenSpace(ws[0], " " + rest);
      assert ws[0] + " " + rest == ws[0] + (" " + rest);
      assert (" " + rest)[1..] == rest;
    }
  }

  /** What is joined has no spaces to strip. */
  lemma {:induction false} TrimJoin(ws: seq<string>)
    requires AllWords(ws)
    ensures ws != [] ==> StartsInWord(Join(ws)) && EndsInWord(Join(ws))
    ensures Trim(Join(ws)) == Join(ws)
  {
    hide IsSpace;
    if |ws| > 1 {
      TrimJoin(ws[1..]);
      var rest := Join(ws[1..]);
      assert Join(ws) == ws[0] + " " + rest;
      assert Join(ws)[|Join(ws)| - 1] == rest[|rest| - 1] && Join(ws)[0] == ws[0][0];
    }
  }

  // ---- leading spaces and digits ----

  predicate IsDigit(c: char) { '0' <= c <= '9' }

  function DigitsLength(s: string): (n: nat)
    ensures n <= |s|
  {
    if s == "" || !IsDigit(s[0]) then 0 else 1 + DigitsLength(s[1..])
  }

  function SpacesLength(s: string): (n: nat)
    ensures n <= |s|
  {
    if s == "" || !IsSpace(s[0]) then 0 else 1 + SpacesLength(s[1..])
  }

  lemma {:induction false} DigitsAreDigits(s: string)
    ensures forall i :: 0 <= i < DigitsLength(s) ==> IsDigit(s[i])
  {
    if s != "" && IsDigit(s[0]) { DigitsAreDigits(s[1..]); }
  }

  lemma {:induction false} SpacesAreSpaces(s: string)
    ensures forall i :: 0 <= i < SpacesLength(s) ==> IsSpace(s[i])
    ensures SpacesLength(s) < |s| ==> !IsSpace(s[SpacesLength(s)])
  {
    if s != "" && IsSpace(s[0]) { SpacesAreSpaces(s[1..]); }
  }

  lemma {:induction false} SpacesEnd(s: string, n: nat)
    requires n <= |s| && (forall i :: 0 <= i < n ==> IsSpace(s[i])) && (n < |s| ==> !IsSpace(s[n]))
    ensures SpacesLength(s) == n
  {
    if n > 0 { SpacesEnd(s[1..], n - 1); }
  }

  lemma {:induction false} DigitsEnd(s: string, n: nat)
    requires n <= |s| && (forall i :: 0 <= i < n ==> IsDigit(s[i])) && (n < |s| ==> !IsDigit(s[n]))
    ensures DigitsLength(s) == n
  {
    if n > 0 { DigitsEnd(s[1..], n - 1); }
  }

  // ---- decimals ----

  ghost predicate AllDigits(s: string) {
    forall i :: 0 <= i < |s| ==> IsDigit(s[i])
  }

  function DigitOf(n: nat): char
    requires n < 10
  {
    (n + '0' as int) as char
  }

  function Decimal(n: nat): (s: string)
    ensures s != "" && AllDigits(s)
  {
    if n < 10 then [DigitOf(n)] else Decimal(n / 10) + [DigitOf(n % 10)]
  }

  function Int(digits: string): nat
    requires AllDigits(digits)
  {
    if digits == "" then 0
    else 10 * Int(digits[..|digits| - 1]) + (digits[|digits| - 1] as int - '0' as int)
  }

  lemma {:induction false} IntOfDecimal(n: nat)
    ensures Int(Decimal(n)) == n
  {
    if n >= 10 {
      IntOfDecimal(n / 10);
      assert Decimal(n)[..|Decimal(n)| - 1] == Decimal(n / 10);
    }
  }
}
