/**
 * The character-level text helpers of the `String` class: `humanize`,
 * `onlyNumbers`, `onlyLetters` and `numberBr2Eng`. Strings are sequences of
 * characters and case mapping is ASCII-only.
 */
module Strings {
  import opened Sequences

  predicate IsUpper(c: char) { 'A' <= c <= 'Z' }
  predicate IsLower(c: char) { 'a' <= c <= 'z' }
  predicate IsDigit(c: char) { '0' <= c <= '9' }
  predicate IsLetter(c: char) { IsUpper(c) || IsLower(c) }

  /** ASCII lowercase of one character (`strtolower`). */
  function ToLower(c: char): (d: char)
    ensures !IsUpper(d)
    ensures IsLetter(c) <==> IsLetter(d)
    ensures !IsLetter(c) ==> d == c
  {
    if IsUpper(c) then (c as int - 'A' as int + 'a' as int) as char else c
  }

  /** ASCII uppercase of one character (`ucfirst` on its first character). */
  function ToUpper(c: char): (d: char)
    ensures !IsLower(d)
    ensures IsLetter(c) <==> IsLetter(d)
    ensures !IsLetter(c) ==> d == c
    ensures ToLower(d) == ToLower(c)
  {
    if IsLower(c) then (c as int - 'a' as int + 'A' as int) as char else c
  }

  /** `strtr($s, $from, $to)` for a single character: every `from` becomes `to`, nothing else changes. */
  function ReplaceChar(s: string, from: char, to: char): (r: string)
    ensures |r| == |s|
    ensures forall i :: 0 <= i < |s| ==> (s[i] == from ==> r[i] == to) && (s[i] != from ==> r[i] == s[i])
  {
    seq(|s|, i requires 0 <= i < |s| => if s[i] == from then to else s[i])
  }

  function StrToLower(s: string): (r: string)
    ensures |r| == |s|
    ensures forall i :: 0 <= i < |s| ==> r[i] == ToLower(s[i])
  {
    seq(|s|, i requires 0 <= i < |s| => ToLower(s[i]))
  }

  function UcFirst(s: string): (r: string)
    ensures |r| == |s|
    ensures |s| > 0 ==> r[0] == ToUpper(s[0]) && r[1..] == s[1..]
  {
    if |s| == 0 then s else [ToUpper(s[0])] + s[1..]
  }

  /**
   * `humanize`: underscores become spaces, the text is lowercased and its
   * first character uppercased. The result reads as the input with `_` shown
   * as a space, ignoring case; only its first character can be upper case,
   * and that one is never lower case.
   */
  function Humanize(text: string): (r: string)
    ensures |r| == |text|
    ensures '_' !in r
    ensures forall i :: 0 <= i < |r| ==> ToLower(r[i]) == ToLower(if text[i] == '_' then ' ' else text[i])
    ensures forall i :: 0 < i < |r| ==> !IsUpper(r[i])
    ensures |r| > 0 ==> !IsLower(r[0])
  {
    UcFirst(StrToLower(ReplaceChar(text, '_', ' ')))
  }

  /** Humanizing a humanized text changes nothing. */
  lemma HumanizeIdempotent(text: string)
    ensures Humanize(Humanize(text)) == Humanize(text)
  {
    var h := Humanize(text);
    var h2 := Humanize(h);
    forall i | 0 <= i < |h|
      ensures h2[i] == h[i]
    {
      if i == 0 {
        assert h2[0] == ToUpper(ToLower(h[0]));
        assert h[0] == ToUpper(ToLower(if text[0] == '_' then ' ' else text[0]));
      } else {
        assert h2[i] == ToLower(h[i]);
      }
    }
  }

  /** The example of the `humanize` documentation: "NOT_REGISTERED" reads "Not registered". */
  lemma HumanizeExample()
    ensures Humanize("NOT_REGISTERED") == "Not registered"
  {
    var spaced := ReplaceChar("NOT_REGISTERED", '_', ' ');
    assert spaced == "NOT REGISTERED";
    var lower := StrToLower(spaced);
    assert lower == "not registered";
    assert UcFirst(lower) == "Not registered";
  }

  /** `onlyNumbers`: the digits of `text`, in order. */
  function OnlyNumbers(text: string): (r: string)
    ensures forall c {:trigger c in r} :: c in r <==> c in text && IsDigit(c)
    ensures |r| <= |text|
  {
    Filter(text, IsDigit)
  }

  /** `onlyLetters`: the ASCII letters of `text`, in order. */
  function OnlyLetters(text: string): (r: string)
    ensures forall c {:trigger c in r} :: c in r <==> c in text && IsLetter(c)
    ensures |r| <= |text|
  {
    Filter(text, IsLetter)
  }

  /**
   * Both filters keep the input order, act on each part of a concatenation
   * separately, are idempotent, and return the input unchanged exactly when
   * it already consists only of characters of the class.
   */
  lemma OnlyNumbersProperties(a: string, b: string)
    ensures SubsequenceOf(OnlyNumbers(a), a)
    ensures OnlyNumbers(a + b) == OnlyNumbers(a) + OnlyNumbers(b)
    ensures OnlyNumbers(OnlyNumbers(a)) == OnlyNumbers(a)
    ensures OnlyNumbers(a) == a <==> forall c :: c in a ==> IsDigit(c)
    ensures forall c :: multiset(OnlyNumbers(a))[c] == if IsDigit(c) then multiset(a)[c] else 0
  {
    forall c { FilterCount(a, IsDigit, c); }
    FilterIsSubsequence(a, IsDigit);
    FilterConcat(a, b, IsDigit);
    FilterIdempotent(a, IsDigit);
    FilterKeepsAllIff(a, IsDigit);
  }

  lemma OnlyLettersProperties(a: string, b: string)
    ensures SubsequenceOf(OnlyLetters(a), a)
    ensures OnlyLetters(a + b) == OnlyLetters(a) + OnlyLetters(b)
    ensures OnlyLetters(OnlyLetters(a)) == OnlyLetters(a)
    ensures OnlyLetters(a) == a <==> forall c :: c in a ==> IsLetter(c)
    ensures forall c :: multiset(OnlyLetters(a))[c] == if IsLetter(c) then multiset(a)[c] else 0
  {
    forall c { FilterCount(a, IsLetter, c); }
    FilterIsSubsequence(a, IsLetter);
    FilterConcat(a, b, IsLetter);
    FilterIdempotent(a, IsLetter);
    FilterKeepsAllIff(a, IsLetter);
  }

  /** A price keeps only its digits: "R$ 9,90" gives "990". */
  lemma OnlyNumbersExample(text: string)
    requires text == "R$ 9,90"
    ensures OnlyNumbers(text) == "990"
  {
    var a, b, c, d := "R$ ", "9", ",", "90";
    assert text == a + b + c + d;
    FilterConcat(a + b + c, d, IsDigit);
    FilterConcat(a + b, c, IsDigit);
    FilterConcat(a, b, IsDigit);
    FilterKeepsAllIff(b, IsDigit);
    FilterKeepsAllIff(d, IsDigit);
    assert Filter(a, IsDigit) == [];
    assert Filter(c, IsDigit) == [];
    assert b + d == "990";
  }

  /** `strtr` with `[',' => '.', '.' => ',']`: both separators are exchanged in one pass. */
  function SwapSeparators(s: string): (r: string)
    ensures |r| == |s|
    ensures forall i :: 0 <= i < |s| ==>
      (s[i] == ',' ==> r[i] == '.') && (s[i] == '.' ==> r[i] == ',') && (s[i] != ',' && s[i] != '.' ==> r[i] == s[i])
  {
    seq(|s|, i requires 0 <= i < |s| => if s[i] == ',' then '.' else if s[i] == '.' then ',' else s[i])
  }

  lemma SwapSeparatorsInvolution(s: string)
    ensures SwapSeparators(SwapSeparators(s)) == s
  {
  }

  /** PHP `$pos == true` for a `strpos` result: `false` is not true, and neither is position 0. */
  predicate LooselyTrue(pos: Option<nat>) { pos.Some? && pos.value != 0 }

  /**
   * PHP `$dot > $comma` for a found `$dot`: against a position it is the
   * integer order; against `false` both sides are compared as booleans, so
   * it holds exactly when `$dot` is not 0.
   */
  predicate LooselyGreater(dot: nat, comma: Option<nat>)
  {
    match comma
    case Some(c) => dot > c
    case None => dot != 0
  }

  /** A separator stays a separator and every other character is kept. */
  ghost predicate OnlySeparatorsChange(s: string, r: string)
  {
    |r| == |s| &&
    forall i :: 0 <= i < |s| ==>
      (s[i] == ',' || s[i] == '.' <==> r[i] == ',' || r[i] == '.') && (s[i] != ',' && s[i] != '.' ==> r[i] == s[i])
  }

  /**
   * `numberBr2Eng`, as written: the case analysis on the first `.` and the
   * first `,`, including PHP's loose comparisons of `strpos` results.
   */
  function NumberBr2Eng(number: string): (r: string)
    ensures OnlySeparatorsChange(number, r)
  {
    var dot := IndexOf(number, '.');
    var comma := IndexOf(number, ',');
    if (dot.None? && comma.None?) || (LooselyTrue(dot) && comma.None?) then number
    else if dot.None? then ReplaceChar(number, ',', '.')
    else if LooselyGreater(dot.value, comma) then number
    else SwapSeparators(number)
  }

  /**
   * The behaviour of `numberBr2Eng` in terms of which separators occur and
   * where they first occur.
   */
  lemma NumberBr2EngCases(s: string)
    ensures '.' !in s && ',' !in s ==> NumberBr2Eng(s) == s
    ensures '.' in s && ',' !in s && s[0] != '.' ==> NumberBr2Eng(s) == s
    ensures '.' !in s && ',' in s ==> NumberBr2Eng(s) == ReplaceChar(s, ',', '.') && ',' !in NumberBr2Eng(s)
    ensures '.' in s && ',' in s && IndexOf(s, '.').value > IndexOf(s, ',').value ==> NumberBr2Eng(s) == s
    ensures '.' in s && ',' in s && IndexOf(s, '.').value < IndexOf(s, ',').value ==> NumberBr2Eng(s) == SwapSeparators(s)
  {
    if '.' in s && ',' !in s && s[0] != '.' {
      assert IndexOf(s, '.').value != 0;
    }
  }

  /**
   * A text whose only separator is a dot at position 0 fails `$dot == true`
   * and is swapped: every dot becomes a comma.
   */
  lemma LeadingDotIsSwapped(s: string)
    requires |s| > 0 && s[0] == '.' && ',' !in s
    ensures NumberBr2Eng(s) == SwapSeparators(s)
    ensures NumberBr2Eng(s) != s
  {
    assert NumberBr2Eng(s)[0] == ',';
  }

  /** A Brazilian amount has its separators swapped: "1.234,5" gives "1,234.5". */
  lemma NumberBr2EngBrazilian(s: string)
    requires s == "1.234,5"
    ensures NumberBr2Eng(s) == "1,234.5"
  {
    IndexOfIs(s, '.', 1);
    IndexOfIs(s, ',', 5);
    NumberBr2EngCases(s);
    var t := SwapSeparators(s);
    assert t[1] == ',' && t[5] == '.';
    assert forall i :: 0 <= i < |s| && i != 1 && i != 5 ==> t[i] == s[i];
  }

  /** An English amount is left as it is. */
  lemma NumberBr2EngEnglish(s: string)
    requires s == "1234.56" || s == "1,234.56"
    ensures NumberBr2Eng(s) == s
  {
    if s == "1234.56" {
      IndexOfIs(s, '.', 4);
    } else {
      IndexOfIs(s, '.', 5);
      IndexOfIs(s, ',', 1);
    }
    NumberBr2EngCases(s);
  }

  /** A comma alone becomes the decimal point. */
  lemma NumberBr2EngCommaOnly(s: string)
    requires s == "1234,56"
    ensures NumberBr2Eng(s) == "1234.56"
  {
    assert '.' !in s;
    assert s[4] == ',';
    NumberBr2EngCases(s);
  }

  /** The leading-dot quirk on a concrete amount: ".5" comes back as ",5". */
  lemma NumberBr2EngLeadingDot()
    ensures NumberBr2Eng(".5") == ",5"
  {
    LeadingDotIsSwapped(".5");
    assert SwapSeparators(".5") == ",5";
  }

  /**
   * `numberBr2Eng` as its comment intends ("none of both or only a dot"):
   * the found-dot test is strict, so a dot-only text is never changed.
   */
  function NumberBr2EngIntended(number: string): (r: string)
    ensures OnlySeparatorsChange(number, r)
    ensures ',' !in number ==> r == number
  {
    var dot := IndexOf(number, '.');
    var comma := IndexOf(number, ',');
    if comma.None? then number
    else if dot.None? then ReplaceChar(number, ',', '.')
    else if dot.value > comma.value then number
    else SwapSeparators(number)
  }

  /** The two definitions differ only on texts with no comma that start with a dot. */
  lemma IntendedAgreesOtherwise(s: string)
    ensures NumberBr2EngIntended(s) == NumberBr2Eng(s) <==> !(|s| > 0 && s[0] == '.' && ',' !in s)
  {
    if |s| > 0 && s[0] == '.' && ',' !in s {
      LeadingDotIsSwapped(s);
    } else if '.' in s && ',' !in s {
      NumberBr2EngCases(s);
    }
  }
}
