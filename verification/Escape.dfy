/** Escaping of special characters in strings, piece by piece within a size limit, and
    reading the result back. Text is bytes; from 128 up they are not printable. */
module Escape {
  import opened Basics

  type Text = seq<Byte>

  const QUOTE: Byte := 34
  const BACKSLASH: Byte := 92
  const NEWLINE: Byte := 10
  const TAB: Byte := 9
  const SPACE: Byte := 32
  const LETTER_N: Byte := 110
  const LETTER_T: Byte := 116
  const DIGIT_0: Byte := 48

  predicate Printable(b: Byte) { SPACE <= b < 128 }

  function Width(b: Byte): nat {
    if b == BACKSLASH || b == QUOTE || b == NEWLINE || b == TAB then 2
    else if Printable(b) then 1
    else 4
  }

  function Digits(b: Byte): Text {
    [DIGIT_0 + b / 100, DIGIT_0 + b / 10 % 10, DIGIT_0 + b % 10]
  }

  function EscapeOne(b: Byte): (r: Text)
    ensures |r| == Width(b)
  {
    if b == BACKSLASH || b == QUOTE then [BACKSLASH, b]
    else if b == NEWLINE then [BACKSLASH, LETTER_N]
    else if b == TAB then [BACKSLASH, LETTER_T]
    else if Printable(b) then [b]
    else [BACKSLASH] + Digits(b)
  }

  function EscapeAll(s: Text): Text {
    if s == [] then [] else EscapeAll(s[..|s| - 1]) + EscapeOne(s[|s| - 1])
  }

  lemma {:induction false} EscapeAppend(a: Text, b: Text)
    ensures EscapeAll(a + b) == EscapeAll(a) + EscapeAll(b)
  {
    hide EscapeOne;
    if b == [] {
      assert a + b == a;
    } else {
      assert (a + b)[..|a + b| - 1] == a + b[..|b| - 1];
      EscapeAppend(a, b[..|b| - 1]);
    }
  }

  /** Whatever the bytes of a text are, escaped it is printable. */
  lemma {:induction false} EscapedPrintable(s: Text)
    ensures forall b | b in EscapeAll(s) :: 32 <= b < 128
  {
    if s != [] { EscapedPrintable(s[..|s| - 1]); }
  }

  predicate Ordinary(s: Text) {
    forall k | 0 <= k < |s| :: 32 <= s[k] < 128 && s[k] != 34 && s[k] != 92
  }

  /** A text stays as it is exactly if it is printable and has no quote and no backslash. */
  lemma {:induction false} EscapedSameIff(s: Text)
    ensures |s| <= |EscapeAll(s)|
    ensures EscapeAll(s) == s <==> Ordinary(s)
    ensures |EscapeAll(s)| == |s| <==> Ordinary(s)
  {
    if s != [] {
      var front, last := s[..|s| - 1], s[|s| - 1];
      EscapedSameIff(front);
      assert s == front + [last];
      assert Ordinary(s) <==> Ordinary(front) && Ordinary([last]);
      assert Ordinary([last]) <==> Width(last) == 1 by { assert [last][0] == last; }
      hide EscapeOne, Width, Ordinary;
      if Ordinary(s) { OrdinaryStays(last); }
    }
  }

  lemma OrdinaryStays(b: Byte)
    requires Width(b) == 1
    ensures EscapeOne(b) == [b]
  {
  }

  /** A longer piece is longer when escaped. */
  lemma {:induction false} EscapeLonger(s: Text, j: nat, k: nat)
    requires j <= k <= |s|
    ensures |EscapeAll(s[..j])| + (k - j) <= |EscapeAll(s[..k])|
  {
    if j < k {
      EscapeLonger(s, j, k - 1);
      assert s[..k][..k - 1] == s[..k - 1];
    }
  }

  /** `k` units are as many as fit: their escaped form stays below the limit, and with one
      more it would not. */
  ghost predicate FitsMost(s: Text, limit: nat, k: nat) {
    && k <= |s|
    && (k == 0 || |EscapeAll(s[..k])| < limit)
    && (k == |s| || |EscapeAll(s[..k])| + Width(s[k]) >= limit)
  }

  /** There is exactly one such number. */
  lemma FitsMostUnique(s: Text, limit: nat, j: nat, k: nat)
    requires FitsMost(s, limit, j) && FitsMost(s, limit, k)
    ensures j == k
  {
    if j < k { FitsFewer(s, limit, j, k); }
    if k < j { FitsFewer(s, limit, k, j); }
  }

  lemma FitsFewer(s: Text, limit: nat, j: nat, k: nat)
    requires j < k <= |s| && |EscapeAll(s[..k])| < limit
    ensures |EscapeAll(s[..j])| + Width(s[j]) < limit
  {
    EscapeLonger(s, j + 1, k);
    assert s[..j + 1][..j] == s[..j];
  }

  /** Escapes as much of the input as stays below the limit; a unit is never split. */
  method EscapeSpecialCharsAndAdvance(s: Text, limit: nat) returns (output: Text, rest: Text)
    ensures exists k: nat :: FitsMost(s, limit, k) && output == EscapeAll(s[..k]) && rest == s[k..]
  {
    output, rest := [], s;
    ghost var k := 0;
    while rest != []
      invariant k <= |s| && rest == s[k..] && output == EscapeAll(s[..k])
      invariant k == 0 || |output| < limit
      decreases |rest|
    {
      var c := rest[0];
      var pair := c == BACKSLASH || c == QUOTE;
      if pair {
        if |output| + 2 >= limit { break; }
        output := output + [BACKSLASH, c];
      } else if Printable(c) {
        if |output| + 1 >= limit { break; }
        output := output + [c];
      } else {
        if |output| + 2 >= limit { break; }
        if c == NEWLINE {
          output := output + [BACKSLASH, LETTER_N];
        } else if c == TAB {
          output := output + [BACKSLASH, LETTER_T];
        } else {
          if |output| + 4 >= limit { break; }
          output := output + ([BACKSLASH] + Digits(c));
        }
      }
      assert s[..k + 1][..k] == s[..k];
      rest := rest[1..];
      k := k + 1;
    }
    assert FitsMost(s, limit, k);
  }

  // ----- reading back -----

  predicate IsDigit(b: Byte) { DIGIT_0 <= b <= DIGIT_0 + 9 }

  function DigitValue(b: Byte): nat
    requires IsDigit(b)
  {
    b - DIGIT_0
  }

  /** One escape sequence after the backslash: its meaning and its length. */
  function UnescapeOne(s: Text): (r: Option<(Byte, nat)>)
    ensures r.Some? ==> 0 < r.value.1 <= |s|
  {
    if s == [] then None
    else if s[0] == BACKSLASH then Some((BACKSLASH, 1))
    else if s[0] == QUOTE then Some((QUOTE, 1))
    else if s[0] == LETTER_N then Some((NEWLINE, 1))
    else if s[0] == LETTER_T then Some((TAB, 1))
    else if IsDigit(s[0]) then
      if |s| >= 3 && IsDigit(s[1]) && IsDigit(s[2]) then
        var code := DigitValue(s[0]) * 100 + DigitValue(s[1]) * 10 + DigitValue(s[2]);
        if code <= 255 then Some((code, 3)) else None
      else None
    else None
  }

  /** What precedes the delimiter, unescaped, and what follows it; `None` is an error. */
  function Unescape(s: Text, delimiter: Byte): (r: Option<(Text, Text)>)
    ensures r.Some? ==> |r.value.1| < |s|
    decreases |s|
  {
    if s == [] then None
    else if s[0] == delimiter then Some(([], s[1..]))
    else if s[0] == BACKSLASH then
      match UnescapeOne(s[1..])
      case None => None
      case Some((b, n)) =>
        match Unescape(s[1 + n..], delimiter)
        case None => None
        case Some((out, rest)) => Some(([b] + out, rest))
    else
      match Unescape(s[1..], delimiter)
      case None => None
      case Some((out, rest)) => Some(([s[0]] + out, rest))
  }

  function Prepend(a: Text, r: Option<(Text, Text)>): Option<(Text, Text)> {
    match r
    case None => None
    case Some((out, rest)) => Some((a + out, rest))
  }

  lemma PrependNothing(r: Option<(Text, Text)>)
    ensures Prepend([], r) == r
  {
    if r.Some? { assert [] + r.value.0 == r.value.0; }
  }

  lemma PrependTwice(a: Text, b: Text, r: Option<(Text, Text)>)
    ensures Prepend(a, Prepend(b, r)) == Prepend(a + b, r)
  {
    if r.Some? { assert a + (b + r.value.0) == (a + b) + r.value.0; }
  }

  /** The reading loop. */
  method UnescapeSpecialCharsAndAdvance(s: Text, delimiter: Byte) returns (r: Option<(Text, Text)>)
    ensures r == Unescape(s, delimiter)
  {
    var output, input: Text := [], s;
    PrependNothing(Unescape(s, delimiter));
    while input != []
      invariant Unescape(s, delimiter) == Prepend(output, Unescape(input, delimiter))
      decreases |input|
    {
      if input[0] == delimiter {
        assert output + [] == output;
        return Some((output, input[1..]));
      }
      ghost var before := output;
      if input[0] == BACKSLASH {
        var one := UnescapeOne(input[1..]);
        if one.None? { return None; }
        output := output + [one.value.0];
        input := input[1 + one.value.1..];
      } else {
        output := output + [input[0]];
        input := input[1..];
      }
      PrependTwice(before, [output[|before|]], Unescape(input, delimiter));
    }
    r := None;
  }

  lemma UnescapeUnit(b: Byte, tail: Text)
    ensures Unescape(EscapeOne(b) + tail, QUOTE) == Prepend([b], Unescape(tail, QUOTE))
  {
    var e := EscapeOne(b);
    var s := e + tail;
    assert s[|e|..] == tail && s[1..] == e[1..] + tail;
    if e[0] == BACKSLASH {
      UnescapeCode(b, tail);
      hide EscapeOne, UnescapeOne;
      assert s[1..][|e| - 1..] == tail;
    }
  }

  /** What follows the backslash. */
  lemma UnescapeCode(b: Byte, tail: Text)
    requires EscapeOne(b)[0] == BACKSLASH
    ensures UnescapeOne(EscapeOne(b)[1..] + tail) == Some((b, |EscapeOne(b)| - 1))
  {
    var e := EscapeOne(b);
    var s := e[1..] + tail;
    if |e| == 4 {
      assert s[0] == DIGIT_0 + b / 100 && s[1] == DIGIT_0 + b / 10 % 10 && s[2] == DIGIT_0 + b % 10;
    } else {
      assert s[0] == e[1];
    }
  }

  /** Reading an escaped string back up to its closing quote gives the string. */
  lemma {:induction false} UnescapeEscaped(s: Text, tail: Text)
    ensures Unescape(EscapeAll(s) + [QUOTE] + tail, QUOTE) == Some((s, tail))
  {
    UnescapeBefore(s, [QUOTE] + tail);
    assert EscapeAll(s) + [QUOTE] + tail == EscapeAll(s) + ([QUOTE] + tail);
    assert ([QUOTE] + tail)[1..] == tail;
    assert s + [] == s;
  }

  lemma {:induction false} UnescapeBefore(s: Text, tail: Text)
    ensures Unescape(EscapeAll(s) + tail, QUOTE) == Prepend(s, Unescape(tail, QUOTE))
  {
    hide Unescape;
    if s == [] {
      assert EscapeAll(s) + tail == tail;
      PrependNothing(Unescape(tail, QUOTE));
    } else {
      var front, last := s[..|s| - 1], s[|s| - 1];
      assert EscapeAll(s) + tail == EscapeAll(front) + (EscapeOne(last) + tail);
      UnescapeBefore(front, EscapeOne(last) + tail);
      UnescapeUnit(last, tail);
      PrependTwice(front, [last], Unescape(tail, QUOTE));
      assert front + [last] == s;
    }
  }

  /** The first quoted string in the input: what is before its opening quote is skipped. */
  function InterpretFirstString(s: Text): Option<(Text, Text)> {
    if s == [] then None
    else if s[0] == QUOTE then Unescape(s[1..], QUOTE)
    else InterpretFirstString(s[1..])
  }
}
