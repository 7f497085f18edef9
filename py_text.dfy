/**
 * The text conversions the validator relies on: Python's int(str) and
 * float(str) (used on a field the language model returned as a string) and
 * str(int) (used when formatting a time). Only ASCII decimal digits are
 * modelled; the character classes and the grammar are Python 3's.
 */
module PyText {
  import opened Wrappers
  import opened JsonValue

  /**
   * The whitespace int() and float() skip around a number: the ASCII space and
   * tab to carriage return, and every character above U+007F for which
   * str.isspace() holds (CPython turns those into spaces before parsing).
   * U+001C to U+001F are not skipped, although str.isspace() holds for them.
   */
  predicate IsSpace(c: char) {
    || ('\t' <= c <= '\r')
    || c == ' '
    || c == '\U{85}'
    || c == '\U{A0}'
    || c == '\U{1680}'
    || ('\U{2000}' <= c <= '\U{200A}')
    || c == '\U{2028}'
    || c == '\U{2029}'
    || c == '\U{202F}'
    || c == '\U{205F}'
    || c == '\U{3000}'
  }

  /** Drops leading whitespace; a text that does not start with whitespace is kept. */
  function TrimStart(s: string): (r: string)
    ensures |r| <= |s|
    ensures r != [] ==> !IsSpace(r[0])
    ensures s != [] && !IsSpace(s[0]) ==> r == s
  {
    if s != [] && IsSpace(s[0]) then TrimStart(s[1..]) else s
  }

  /** Drops trailing whitespace; a text that does not end with whitespace is kept. */
  function TrimEnd(s: string): (r: string)
    ensures |r| <= |s|
    ensures r != [] ==> !IsSpace(r[|r| - 1]) && r[0] == s[0]
    ensures s != [] && !IsSpace(s[|s| - 1]) ==> r == s
  {
    if s != [] && IsSpace(s[|s| - 1]) then TrimEnd(s[..|s| - 1]) else s
  }

  /** The text int() and float() parse, whitespace removed from both ends; a text without any is kept as it is. */
  function Strip(s: string): (r: string)
    ensures r != [] ==> !IsSpace(r[0]) && !IsSpace(r[|r| - 1])
    ensures s != [] && !IsSpace(s[0]) && !IsSpace(s[|s| - 1]) ==> r == s
  {
    TrimEnd(TrimStart(s))
  }

  /** TrimStart removes exactly a run of leading whitespace. */
  lemma {:induction false} TrimStartRemovesSpace(s: string)
    ensures var r := TrimStart(s); r == s[|s| - |r|..] && forall i :: 0 <= i < |s| - |r| ==> IsSpace(s[i])
  {
    if s != [] && IsSpace(s[0]) {
      TrimStartRemovesSpace(s[1..]);
    }
  }

  /** TrimEnd removes exactly a run of trailing whitespace. */
  lemma {:induction false} TrimEndRemovesSpace(s: string)
    ensures var r := TrimEnd(s); r == s[..|r|] && forall i :: |r| <= i < |s| ==> IsSpace(s[i])
  {
    if s != [] && IsSpace(s[|s| - 1]) {
      TrimEndRemovesSpace(s[..|s| - 1]);
    }
  }

  predicate IsDigit(c: char) {
    '0' <= c <= '9'
  }

  function DigitValue(c: char): nat
    requires IsDigit(c)
  {
    c as int - '0' as int
  }

  function DigitChar(d: nat): (c: char)
    requires d < 10
    ensures IsDigit(c) && DigitValue(c) == d
  {
    ('0' as int + d) as char
  }

  predicate DigitsOrUnderscores(s: string) {
    forall i :: 0 <= i < |s| ==> IsDigit(s[i]) || s[i] == '_'
  }

  /**
   * A group of digits as int() and float() accept it: digits, with single
   * underscores allowed only between two digits ("1_000", not "_1", "1__0", "1_").
   */
  predicate IsDigitPart(s: string) {
    && |s| > 0
    && IsDigit(s[0])
    && IsDigit(s[|s| - 1])
    && DigitsOrUnderscores(s)
    && (forall i :: 0 < i < |s| ==> IsDigit(s[i - 1]) || IsDigit(s[i]))
  }

  /** The number a digit group denotes, underscores skipped. */
  function DigitsValue(s: string): nat
    requires DigitsOrUnderscores(s)
  {
    if s == [] then 0
    else if s[|s| - 1] == '_' then DigitsValue(s[..|s| - 1])
    else 10 * DigitsValue(s[..|s| - 1]) + DigitValue(s[|s| - 1])
  }

  /** The value of the digits after a decimal point: "5" is 0.5, "25" is 0.25, underscores skipped. */
  function FractionValue(s: string): real
    requires DigitsOrUnderscores(s)
  {
    if s == [] then 0.0
    else if s[0] == '_' then FractionValue(s[1..])
    else (DigitValue(s[0]) as real + FractionValue(s[1..])) / 10.0
  }

  /** The canonical decimal digits of a natural number (no leading zero). */
  function NatText(n: nat): (t: string)
    ensures |t| > 0 && forall i :: 0 <= i < |t| ==> IsDigit(t[i])
    ensures |t| > 1 ==> t[0] != '0'
    ensures n < 10 <==> |t| == 1
  {
    if n < 10 then [DigitChar(n)] else NatText(n / 10) + [DigitChar(n % 10)]
  }

  /** str(n) for a Python int. */
  function IntText(n: int): string {
    if n < 0 then "-" + NatText(-n) else NatText(n)
  }

  /** An optionally signed digit group, as in an int() argument or a float exponent. */
  function SignedDigits(t: string): Option<int> {
    if t != [] && (t[0] == '+' || t[0] == '-') then
      if IsDigitPart(t[1..]) then
        var v: int := DigitsValue(t[1..]);
        Some(if t[0] == '-' then -v else v)
      else None
    else if IsDigitPart(t) then Some(DigitsValue(t))
    else None
  }

  /** How many decimal digits a text holds. */
  function DigitCount(t: string): nat {
    if t == [] then 0
    else DigitCount(t[..|t| - 1]) + (if IsDigit(t[|t| - 1]) then 1 else 0)
  }

  /** The most digits int() reads from a text (Python's default `sys.set_int_max_str_digits`). */
  const MaxStrDigits: nat := 4300

  /** The number of digits of str(n). */
  function DecimalDigits(n: int): nat {
    |NatText(if n < 0 then -n else n)|
  }

  /**
   * int(text) on a str, base 10: None where Python raises ValueError, which
   * includes a text of more than MaxStrDigits digits.
   */
  function ParseInt(text: string): (r: Option<int>)
    ensures r.Some? ==> var t := Strip(text);
      && t != [] && IsDigit(t[|t| - 1]) && (IsDigit(t[0]) || t[0] == '+' || t[0] == '-')
      && DigitCount(t) <= MaxStrDigits
    ensures r.Some? ==> var t := Strip(text);
      && (forall i :: 0 < i < |t| ==> IsDigit(t[i]) || t[i] == '_')
      && (forall i :: 0 < i < |t| ==> IsDigit(t[i - 1]) || IsDigit(t[i]))
  {
    var t := Strip(text);
    if DigitCount(t) > MaxStrDigits then None
    else (SignedDigitsShape(t); SignedDigits(t))
  }

  /** An accepted signed digit group holds only digits and single underscores after its first character. */
  lemma SignedDigitsShape(t: string)
    ensures SignedDigits(t).Some? ==>
      && (forall i :: 0 < i < |t| ==> IsDigit(t[i]) || t[i] == '_')
      && (forall i :: 0 < i < |t| ==> IsDigit(t[i - 1]) || IsDigit(t[i]))
  {
    if t != [] && (t[0] == '+' || t[0] == '-') && IsDigitPart(t[1..]) {
      forall i | 0 < i < |t|
        ensures IsDigit(t[i]) || t[i] == '_'
        ensures IsDigit(t[i - 1]) || IsDigit(t[i])
      {
        assert t[i] == t[1..][i - 1];
        if i > 1 { assert t[i - 1] == t[1..][i - 2]; }
      }
    }
  }

  /** The first position of a character from `cs`, if any. */
  function IndexOfAny(s: string, cs: set<char>): (r: Option<nat>)
    ensures r.Some? ==> r.value < |s| && s[r.value] in cs
    ensures r.Some? ==> forall i :: 0 <= i < r.value ==> s[i] !in cs
    ensures r.None? ==> forall i :: 0 <= i < |s| ==> s[i] !in cs
  {
    if s == [] then None
    else if s[0] in cs then Some(0)
    else match IndexOfAny(s[1..], cs)
      case None => None
      case Some(k) => Some(k + 1)
  }

  /** `[digitpart] "." digitpart | digitpart ["."]`, the mantissa of a float literal. */
  function MantissaValue(s: string): Option<real> {
    match IndexOfAny(s, {'.'})
    case None => if IsDigitPart(s) then Some(DigitsValue(s) as real) else None
    case Some(j) =>
      var whole, fraction := s[..j], s[j + 1..];
      if (whole == [] && IsDigitPart(fraction)) || (IsDigitPart(whole) && (fraction == [] || IsDigitPart(fraction))) then
        Some(DigitsValue(whole) as real + FractionValue(fraction))
      else None
  }

  /** m * 10^e, exactly. */
  function Scale(m: real, e: int): real
    decreases if e < 0 then -e else e
  {
    if e == 0 then m
    else if e > 0 then 10.0 * Scale(m, e - 1)
    else Scale(m, e + 1) / 10.0
  }

  /** `mantissa [("e" | "E") [sign] digitpart]`, an unsigned finite float literal. */
  function DecimalValue(s: string): Option<real> {
    match IndexOfAny(s, {'e', 'E'})
    case None => MantissaValue(s)
    case Some(k) =>
      match (MantissaValue(s[..k]), SignedDigits(s[k + 1..]))
      case (Some(m), Some(e)) => Some(Scale(m, e))
      case _ => None
  }

  /** ASCII case folding, which is how float() compares "inf", "infinity" and "nan". */
  function AsciiLower(s: string): (r: string)
    ensures |r| == |s|
    ensures forall i :: 0 <= i < |s| && !('A' <= s[i] <= 'Z') ==> r[i] == s[i]
  {
    seq(|s|, i requires 0 <= i < |s| => if 'A' <= s[i] <= 'Z' then (s[i] as int + 32) as char else s[i])
  }

  /** The words float() reads case-insensitively: "inf", "infinity" and "nan". */
  function SpecialFloat(word: string, negative: bool): Option<Float> {
    if word == "inf" || word == "infinity" then Some(if negative then NegInf else PosInf)
    else if word == "nan" then Some(NaN)
    else None
  }

  /** An optionally signed digit group ends in a digit. */
  lemma SignedDigitsEnds(t: string)
    requires SignedDigits(t).Some?
    ensures t != [] && IsDigit(t[|t| - 1])
  {
    if t[0] == '+' || t[0] == '-' {
      assert t[1..][|t| - 2] == t[|t| - 1];
    }
  }

  /** A decimal literal ends in a digit, or in the point of a mantissa like "5.". */
  lemma DecimalValueEnds(s: string)
    ensures DecimalValue(s).Some? ==> s != [] && (IsDigit(s[|s| - 1]) || s[|s| - 1] == '.')
  {
    if DecimalValue(s).None? {
    } else {
      DecimalValueSomeEnds(s);
    }
  }

  lemma DecimalValueSomeEnds(s: string)
    requires DecimalValue(s).Some?
    ensures s != [] && (IsDigit(s[|s| - 1]) || s[|s| - 1] == '.')
  {
    match IndexOfAny(s, {'e', 'E'})
    case Some(k) =>
      SignedDigitsEnds(s[k + 1..]);
      assert s[k + 1..][|s| - k - 2] == s[|s| - 1];
    case None =>
      match IndexOfAny(s, {'.'})
      case None =>
      case Some(j) =>
        var fraction := s[j + 1..];
        if fraction != [] {
          assert fraction[|fraction| - 1] == s[|s| - 1];
        }
  }

  /** float() of an unsigned literal: a special word in any ASCII case, or a decimal literal. */
  function UnsignedFloat(body: string, negative: bool): Option<Float> {
    match SpecialFloat(AsciiLower(body), negative)
    case Some(f) => Some(f)
    case None =>
      match DecimalValue(body)
      case Some(r) => Some(Finite(if negative then -r else r))
      case None => None
  }

  /** float() of a text without surrounding whitespace: an optional sign, then an unsigned literal. */
  function SignedFloat(t: string): Option<Float> {
    if t != [] && (t[0] == '+' || t[0] == '-') then UnsignedFloat(t[1..], t[0] == '-')
    else UnsignedFloat(t, false)
  }

  /** What float() reads is never blank, and a finite value's literal ends in a digit or a point. */
  lemma SignedFloatEnds(t: string)
    ensures SignedFloat(t).Some? ==> t != []
    ensures SignedFloat(t).Some? && SignedFloat(t).value.Finite? ==> IsDigit(t[|t| - 1]) || t[|t| - 1] == '.'
  {
    var body := if t != [] && (t[0] == '+' || t[0] == '-') then t[1..] else t;
    var negative := t != [] && t[0] == '-';
    assert SignedFloat(t) == UnsignedFloat(body, negative);
    DecimalValueEnds(body);
    if body != [] {
      assert body[|body| - 1] == t[|t| - 1];
    }
  }

  /**
   * float(text) on a str: None where Python raises ValueError. What it reads
   * is never blank, and the text of a finite value ends in a digit or a point.
   */
  function ParseFloat(text: string): (r: Option<Float>)
    ensures r.Some? ==> Strip(text) != []
    ensures r.Some? && r.value.Finite? ==> var t := Strip(text); IsDigit(t[|t| - 1]) || t[|t| - 1] == '.'
  {
    SignedFloatEnds(Strip(text));
    SignedFloat(Strip(text))
  }

  lemma {:induction false} NatTextValue(n: nat)
    ensures DigitsOrUnderscores(NatText(n))
    ensures DigitsValue(NatText(n)) == n
  {
    var t := NatText(n);
    if n >= 10 {
      NatTextValue(n / 10);
      assert t[..|t| - 1] == NatText(n / 10);
    }
  }

  /** Canonical digits form a digit group (no underscores at all). */
  lemma NatTextIsDigitPart(n: nat)
    ensures IsDigitPart(NatText(n))
  {
  }

  /** Text made of a sign and digits has no whitespace to strip. */
  lemma IntTextStripped(n: int)
    ensures Strip(IntText(n)) == IntText(n)
  {
    var t := IntText(n);
    assert t[0] == '-' || IsDigit(t[0]);
    assert IsDigit(t[|t| - 1]);
  }

  /** The signed-digits reader inverts IntText on every int. */
  lemma SignedDigitsOfIntText(n: int)
    ensures SignedDigits(IntText(n)) == Some(n)
  {
    var k: nat := if n < 0 then -n else n;
    NatTextIsDigitPart(k);
    NatTextValue(k);
    var t := IntText(n);
    if n < 0 {
      assert t[0] == '-' && t[1..] == NatText(k);
    } else {
      assert t == NatText(k) && IsDigit(t[0]);
    }
  }

  /** Digit counts add up over a concatenation. */
  lemma {:induction false} DigitCountConcat(a: string, b: string)
    ensures DigitCount(a + b) == DigitCount(a) + DigitCount(b)
  {
    if b == [] {
      assert a + b == a;
    } else {
      var b' := b[..|b| - 1];
      assert (a + b)[..|a + b| - 1] == a + b';
      DigitCountConcat(a, b');
    }
  }

  /** Every character of str(n) but its sign is a digit. */
  lemma {:induction false} DigitCountNatText(n: nat)
    ensures DigitCount(NatText(n)) == |NatText(n)|
  {
    if n >= 10 {
      DigitCountNatText(n / 10);
      assert NatText(n)[..|NatText(n)| - 1] == NatText(n / 10);
    }
  }

  lemma DigitCountIntText(n: int)
    ensures DigitCount(IntText(n)) == DecimalDigits(n)
  {
    var k: nat := if n < 0 then -n else n;
    DigitCountNatText(k);
    if n < 0 {
      DigitCountConcat("-", NatText(k));
      assert DigitCount("-") == 0 by {
        assert "-"[..0] == [];
      }
    }
  }

  /**
   * int(str(n)) == n for every int of at most MaxStrDigits digits; from one
   * digit more on, int() rejects the text.
   */
  lemma IntTextRoundTrip(n: int)
    ensures DecimalDigits(n) <= MaxStrDigits ==> ParseInt(IntText(n)) == Some(n)
    ensures DecimalDigits(n) > MaxStrDigits ==> ParseInt(IntText(n)) == None
  {
    IntTextStripped(n);
    DigitCountIntText(n);
    SignedDigitsOfIntText(n);
  }

  /** A text without any of the characters has no index for them. */
  lemma IndexOfAnyAbsent(s: string, cs: set<char>)
    requires forall i :: 0 <= i < |s| ==> s[i] !in cs
    ensures IndexOfAny(s, cs) == None
  {
  }

  /** A text that starts with a digit is none of float()'s special words. */
  lemma DigitLedIsNotSpecial(s: string, negative: bool)
    requires s != [] && IsDigit(s[0])
    ensures SpecialFloat(AsciiLower(s), negative) == None
  {
    var w := AsciiLower(s);
    assert w[0] == s[0];
    assert w != "inf" && w != "infinity" && w != "nan" by {
      assert "inf"[0] == 'i' && "infinity"[0] == 'i' && "nan"[0] == 'n';
    }
  }

  /** A canonical digit string is a plain decimal literal with its own value. */
  lemma NatTextIsPlainDecimal(n: nat)
    ensures DecimalValue(NatText(n)) == Some(n as real)
  {
    var t := NatText(n);
    NatTextIsDigitPart(n);
    NatTextValue(n);
    IndexOfAnyAbsent(t, {'e', 'E'});
    IndexOfAnyAbsent(t, {'.'});
  }

  /** A stripped literal, digit-led after an optional minus sign, reads through float() as its decimal value. */
  lemma ParseFloatDecimal(t: string, body: string, negative: bool, x: real)
    requires Strip(t) == t && t != []
    requires negative ==> t[0] == '-' && t[1..] == body
    requires !negative ==> t == body
    requires body != [] && IsDigit(body[0])
    requires DecimalValue(body) == Some(x)
    ensures ParseFloat(t) == Some(Finite(if negative then -x else x))
  {
    DigitLedIsNotSpecial(body, negative);
    assert UnsignedFloat(body, negative) == Some(Finite(if negative then -x else x));
    assert SignedFloat(t) == UnsignedFloat(body, negative);
  }

  /** A minus sign in front of digits has no whitespace to strip. */
  lemma MinusDigitsStripped(d: string)
    requires d != [] && IsDigit(d[0]) && IsDigit(d[|d| - 1])
    ensures Strip("-" + d) == "-" + d
  {
    var t := "-" + d;
    assert t[|t| - 1] == d[|d| - 1];
  }

  /** float(str(n)) == n: integer text reads as the same value through float(). */
  lemma IntTextAsFloat(n: int)
    ensures ParseFloat(IntText(n)) == Some(Finite(n as real))
  {
    var k: nat := if n < 0 then -n else n;
    var d := NatText(k);
    NatTextIsPlainDecimal(k);
    if n < 0 {
      MinusDigitsStripped(d);
      assert ("-" + d)[1..] == d;
      ParseFloatDecimal(IntText(n), d, true, k as real);
    } else {
      IntTextStripped(n);
      ParseFloatDecimal(IntText(n), d, false, k as real);
    }
  }

  /** The first character from `cs` is found where it is. */
  lemma IndexOfAnyAt(s: string, cs: set<char>, j: nat)
    requires j < |s| && s[j] in cs
    requires forall i :: 0 <= i < j ==> s[i] !in cs
    ensures IndexOfAny(s, cs) == Some(j)
  {
  }

  /** Digits, a point and one more digit denote the number plus that many tenths. */
  lemma DecimalTenths(n: nat, d: nat)
    requires d < 10
    ensures DecimalValue(NatText(n) + "." + [DigitChar(d)]) == Some(n as real + d as real / 10.0)
  {
    var whole := NatText(n);
    var t := whole + "." + [DigitChar(d)];
    IndexOfAnyAbsent(t, {'e', 'E'});
    IndexOfAnyAt(t, {'.'}, |whole|);
    assert t[..|whole|] == whole && t[|whole| + 1..] == [DigitChar(d)];
    NatTextIsDigitPart(n);
    NatTextValue(n);
    assert FractionValue([DigitChar(d)]) == d as real / 10.0 by {
      assert [DigitChar(d)][1..] == [];
    }
  }

  /** A text that starts and ends with a digit has no whitespace to strip. */
  lemma DigitEndsStripped(t: string)
    requires t != [] && IsDigit(t[0]) && IsDigit(t[|t| - 1])
    ensures Strip(t) == t
  {
  }

  /** float() reads digits, a point and one more digit as the number plus that many tenths. */
  lemma TenthsRead(n: nat, d: nat)
    requires d < 10
    ensures ParseFloat(NatText(n) + "." + [DigitChar(d)]) == Some(Finite(n as real + d as real / 10.0))
  {
    var t := NatText(n) + "." + [DigitChar(d)];
    assert t[0] == NatText(n)[0] && t[|t| - 1] == DigitChar(d);
    DigitEndsStripped(t);
    DecimalTenths(n, d);
    ParseFloatDecimal(t, t, false, n as real + d as real / 10.0);
  }

  /** Digits, an "e" and an exponent denote the number scaled by that power of ten. */
  lemma DecimalExponent(n: nat, e: int)
    ensures DecimalValue(NatText(n) + "e" + IntText(e)) == Some(Scale(n as real, e))
  {
    var whole := NatText(n);
    var t := whole + "e" + IntText(e);
    IndexOfAnyAt(t, {'e', 'E'}, |whole|);
    assert t[..|whole|] == whole && t[|whole| + 1..] == IntText(e);
    NatTextIsPlainDecimal(n);
    SignedDigitsOfIntText(e);
  }

  /** str(n) ends in a digit. */
  lemma IntTextEndsInDigit(n: int)
    ensures |IntText(n)| > 0 && IsDigit(IntText(n)[|IntText(n)| - 1])
  {
    var k: nat := if n < 0 then -n else n;
    assert IntText(n)[|IntText(n)| - 1] == NatText(k)[|NatText(k)| - 1];
  }

  /** float() reads digits, an "e" and an exponent as the number scaled by that power of ten. */
  lemma ExponentRead(n: nat, e: int)
    ensures ParseFloat(NatText(n) + "e" + IntText(e)) == Some(Finite(Scale(n as real, e)))
  {
    var t := NatText(n) + "e" + IntText(e);
    IntTextEndsInDigit(e);
    assert t[|t| - 1] == IntText(e)[|IntText(e)| - 1];
    assert t[0] == NatText(n)[0];
    DigitEndsStripped(t);
    DecimalExponent(n, e);
    ParseFloatDecimal(t, t, false, Scale(n as real, e));
  }

  /** A stripped text, a sign and a special word after it, reads as that word's value. */
  lemma ParseFloatSpecial(t: string, sign: string, body: string, f: Float)
    requires sign == "" || sign == "+" || sign == "-"
    requires t == sign + body && Strip(t) == t
    requires body != [] && body[0] != '+' && body[0] != '-'
    requires SpecialFloat(AsciiLower(body), sign == "-") == Some(f)
    ensures ParseFloat(t) == Some(f)
  {
    if sign == "" {
      assert t == body;
    } else {
      assert t[0] == sign[0] && t[1..] == body;
    }
  }

  /** An unsigned stripped text that is neither a special word nor a decimal literal is rejected. */
  lemma ParseFloatRejected(t: string)
    requires Strip(t) == t && t != [] && t[0] != '+' && t[0] != '-'
    requires SpecialFloat(AsciiLower(t), false) == None && DecimalValue(t) == None
    ensures ParseFloat(t) == None
  {
  }

  /** A word of ASCII letters, alone or after a sign, has no whitespace to strip. */
  lemma WordStripped(w: string, sign: string)
    requires |w| > 0 && 'a' <= AsciiLower(w)[0] <= 'z' && 'a' <= AsciiLower(w)[|w| - 1] <= 'z'
    requires sign == "" || sign == "+" || sign == "-"
    ensures Strip(sign + w) == sign + w
  {
    var t := sign + w;
    assert t[|t| - 1] == w[|w| - 1];
    assert t[0] == w[0] || t[0] == '+' || t[0] == '-';
  }

  /** A special word, in any ASCII case, is read with every sign. */
  lemma SpecialAnySign(w: string, f: Float, negated: Float)
    requires |w| > 0 && 'a' <= AsciiLower(w)[0] <= 'z' && 'a' <= AsciiLower(w)[|w| - 1] <= 'z'
    requires SpecialFloat(AsciiLower(w), false) == Some(f) && SpecialFloat(AsciiLower(w), true) == Some(negated)
    ensures ParseFloat(w) == Some(f) && ParseFloat("+" + w) == Some(f) && ParseFloat("-" + w) == Some(negated)
  {
    assert w[0] != '+' && w[0] != '-';
    WordStripped(w, "");
    WordStripped(w, "+");
    WordStripped(w, "-");
    assert "" + w == w;
    ParseFloatSpecial(w, "", w, f);
    ParseFloatSpecial("+" + w, "+", w, f);
    ParseFloatSpecial("-" + w, "-", w, negated);
  }

  /** "nan" in any ASCII case, with or without a sign, reads as NaN. */
  lemma NaNAnyCase(w: string)
    requires AsciiLower(w) == "nan"
    ensures ParseFloat(w) == Some(NaN)
    ensures ParseFloat("+" + w) == Some(NaN) && ParseFloat("-" + w) == Some(NaN)
  {
    SpecialAnySign(w, NaN, NaN);
  }

  /** "inf" and "infinity" in any ASCII case read as an infinity, negative after a minus sign. */
  lemma InfinityAnyCase(w: string)
    requires AsciiLower(w) == "inf" || AsciiLower(w) == "infinity"
    ensures ParseFloat(w) == Some(PosInf) && ParseFloat("+" + w) == Some(PosInf)
    ensures ParseFloat("-" + w) == Some(NegInf)
  {
    SpecialAnySign(w, PosInf, NegInf);
  }

  /** A decimal fraction as a language model writes a 5 km time. */
  lemma FractionExample()
    ensures ParseFloat("22.5") == Some(Finite(22.5))
  {
    assert NatText(22) == "22";
    TenthsRead(22, 5);
    assert NatText(22) + "." + [DigitChar(5)] == "22.5";
  }

  lemma ExponentExample()
    ensures ParseFloat("15e2") == Some(Finite(1500.0))
  {
    assert NatText(15) == "15" && IntText(2) == "2";
    ExponentRead(15, 2);
    assert NatText(15) + "e" + IntText(2) == "15e2";
  }

  lemma NaNExample()
    ensures ParseFloat("nan") == Some(NaN)
  {
    NaNAnyCase("nan");
  }

  lemma AsciiLowerInfinity()
    ensures AsciiLower("Infinity") == "infinity"
  {
  }

  lemma NegativeInfinityExample()
    ensures ParseFloat("-" + "Infinity") == Some(NegInf)
  {
    AsciiLowerInfinity();
    InfinityAnyCase("Infinity");
  }

  lemma DecimalCommaIsNoDecimal()
    ensures DecimalValue("22,5") == None
  {
    assert "22,5"[2] == ',';
  }

  lemma DecimalCommaIsNoWord()
    ensures SpecialFloat(AsciiLower("22,5"), false) == None
  {
    assert AsciiLower("22,5")[0] == '2';
  }

  /** float() rejects a decimal comma. */
  lemma DecimalCommaRejected()
    ensures ParseFloat("22,5") == None
  {
    DecimalCommaIsNoDecimal();
    DecimalCommaIsNoWord();
    ParseFloatRejected("22,5");
  }

  /** float() rejects an exponent without digits. */
  lemma BareExponentRejected()
    ensures ParseFloat("1e") == None
  {
    assert "1e"[1..][..0] == [];
    assert AsciiLower("1e") == "1e";
  }

  /** A mantissa cannot start with anything but a digit or a point. */
  lemma MantissaNotDigitLed(s: string)
    requires s == [] || (!IsDigit(s[0]) && s[0] != '.')
    ensures MantissaValue(s) == None
  {
    match IndexOfAny(s, {'.'})
    case None =>
    case Some(j) =>
      assert j > 0;
      assert s[..j][0] == s[0];
  }

  /** A text that starts with a letter is no decimal literal. */
  lemma LetterLedIsNoDecimal(s: string)
    requires s != [] && 'a' <= AsciiLower(s)[0] <= 'z'
    ensures DecimalValue(s) == None
  {
    assert !IsDigit(s[0]) && s[0] != '.';
    match IndexOfAny(s, {'e', 'E'})
    case None =>
      MantissaNotDigitLed(s);
    case Some(k) =>
      if k > 0 {
        assert s[..k][0] == s[0];
      }
      MantissaNotDigitLed(s[..k]);
  }

  /** A word of ASCII letters that does not fold to "inf", "infinity" or "nan" is rejected, with any sign. */
  lemma OtherWordRejected(w: string)
    requires |w| > 0 && 'a' <= AsciiLower(w)[0] <= 'z' && 'a' <= AsciiLower(w)[|w| - 1] <= 'z'
    requires AsciiLower(w) != "inf" && AsciiLower(w) != "infinity" && AsciiLower(w) != "nan"
    ensures ParseFloat(w) == None && ParseFloat("-" + w) == None
  {
    LetterLedIsNoDecimal(w);
    WordStripped(w, "");
    WordStripped(w, "-");
    assert "" + w == w;
    assert w[0] != '+' && w[0] != '-';
    assert SignedFloat(w) == UnsignedFloat(w, false);
    assert ("-" + w)[1..] == w;
    assert SignedFloat("-" + w) == UnsignedFloat(w, true);
  }

  lemma NearWordIsNoWord()
    ensures AsciiLower("infinite") == "infinite"
    ensures AsciiLower("infinite") != "inf" && AsciiLower("infinite") != "infinity"
  {
    assert "infinite"[7] != "infinity"[7];
  }

  /** float() rejects a word that only resembles "infinity". */
  lemma NearWordRejected()
    ensures ParseFloat("infinite") == None
  {
    NearWordIsNoWord();
    OtherWordRejected("infinite");
  }

  /** int() skips surrounding whitespace. */
  lemma SurroundingSpaceSkipped()
    ensures ParseInt(" 25\n") == Some(25)
  {
    assert TrimStart(" 25\n") == "25\n" by {
      assert " 25\n"[1..] == "25\n";
    }
    assert TrimEnd("25\n") == "25" by {
      assert "25\n"[..2] == "25";
    }
    assert "25"[..1] == "2" && "2"[..0] == [];
  }

  /** int() skips an underscore between digits. */
  lemma UnderscoreSkipped()
    ensures ParseInt("1_000") == Some(1000)
  {
    assert "1_000"[..4] == "1_00" && "1_00"[..3] == "1_0" && "1_0"[..2] == "1_";
    assert "1_"[..1] == "1" && "1"[..0] == [];
  }

  /** int() rejects a fraction. */
  lemma FractionRejected()
    ensures ParseInt("25.5") == None
  {
    assert "25.5"[2] == '.';
  }

  /** int() rejects two underscores in a row. */
  lemma DoubleUnderscoreRejected()
    ensures ParseInt("1__0") == None
  {
    assert "1__0"[2] == '_' && "1__0"[1] == '_';
  }

  /** int() does not skip U+001C, although str.isspace() holds for it. */
  lemma FileSeparatorNotSkipped()
    ensures ParseInt("\U{1C}25") == None
  {
  }
}
