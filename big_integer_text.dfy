// BigInteger's string constructor (pastel/math/biginteger.cpp): the
// first whitespace-delimited word of the text, an optional '-' or '+',
// then decimal digits, each one multiplying the value so far by ten and
// adding the digit; any other character throws BadNumberString.
module BigIntegerText {
  import opened BigDigits
  import opened BigIntegers
  import opened BigIntegerProducts

  datatype Parse = Parsed(value: BigInt) | BadNumberString

  /** The characters a stream skips as white space. */
  predicate IsSpace(c: char)
  {
    c == ' ' || c == '\t' || c == '\n' || c == '\r' || c == '\U{0B}' || c == '\U{0C}'
  }

  predicate IsDecimalDigit(c: char)
  {
    '0' <= c <= '9'
  }

  predicate AllDecimal(s: string)
  {
    forall i :: 0 <= i < |s| ==> IsDecimalDigit(s[i])
  }

  /** The leading white space of s dropped. */
  function SkipSpace(s: string): (t: string)
    ensures |t| <= |s| && t == s[|s| - |t|..]
    ensures forall i :: 0 <= i < |s| - |t| ==> IsSpace(s[i])
    ensures |t| > 0 ==> !IsSpace(t[0])
  {
    if |s| > 0 && IsSpace(s[0]) then SkipSpace(s[1..]) else s
  }

  /** The longest prefix of s without white space. */
  function Word(s: string): (w: string)
    ensures |w| <= |s| && w == s[..|w|]
    ensures forall i :: 0 <= i < |w| ==> !IsSpace(w[i])
    ensures |w| < |s| ==> IsSpace(s[|w|])
  {
    if |s| == 0 || IsSpace(s[0]) then [] else [s[0]] + Word(s[1..])
  }

  /** What `stream >> number` reads: the first word of the text. */
  function Token(text: string): string
  {
    Word(SkipSpace(text))
  }

  function SignLength(token: string): (n: nat)
    ensures n <= |token|
  {
    if |token| > 0 && (token[0] == '-' || token[0] == '+') then 1 else 0
  }

  predicate Negated(token: string)
  {
    |token| > 0 && token[0] == '-'
  }

  /** The digits of the number: the token after its sign. */
  function Body(token: string): string
  {
    token[SignLength(token)..]
  }

  function DigitValue(c: char): (d: int)
    requires IsDecimalDigit(c)
    ensures 0 <= d < 10
  {
    c as int - '0' as int
  }

  /** The value of a string of decimal digits, most significant first. */
  function DecimalValue(s: string): (v: nat)
    requires AllDecimal(s)
  {
    if |s| == 0 then 0 else DecimalValue(s[..|s| - 1]) * 10 + DigitValue(s[|s| - 1])
  }

  /** What the constructor promises: the token's digits read in decimal,
      negated after a '-'; an empty text is zero. */
  function StringValue(text: string): (r: Parse)
    ensures r.Parsed? <==> AllDecimal(Body(Token(text)))
    ensures r.Parsed? ==> Valid(r.value)
  {
    var token := Token(text);
    var body := Body(token);
    var magnitude: int := if AllDecimal(body) then DecimalValue(body) else 0;
    if !AllDecimal(body) then BadNumberString
    else Parsed(FromInteger(if Negated(token) then -magnitude else magnitude))
  }

  /** What the constructor as written produces: the sign of a '-' is set
      first and then lost at the first digit, because multiplying the
      zero start value by ten yields a positive zero; a '-' with no digit
      after it leaves a negative zero. */
  function StringValueAsWritten(text: string): (r: Parse)
    ensures r.Parsed? <==> AllDecimal(Body(Token(text)))
  {
    var token := Token(text);
    var body := Body(token);
    if !AllDecimal(body) then BadNumberString
    else if |body| == 0 then Parsed(BigInt([], !Negated(token)))
    else Parsed(FromInteger(DecimalValue(body)))
  }

  /** The digit loop shared by both readings: from a zero x, each pass
      multiplies by ten, checks the character and adds the digit. */
  method AccumulateDigits(number: string, start: nat, x: BigInt) returns (r: Parse)
    requires start <= |number| && x.digits == []
    ensures !AllDecimal(number[start..]) ==> r == BadNumberString
    ensures AllDecimal(number[start..]) && start == |number| ==> r == Parsed(x)
    ensures AllDecimal(number[start..]) && start < |number| ==>
      r == Parsed(FromInteger(DecimalValue(number[start..])))
  {
    var value := x;
    var offset := start;
    while offset < |number|
      invariant start <= offset <= |number| && AllDecimal(number[start..offset])
      invariant offset == start ==> value == x
      invariant offset > start ==> Valid(value) && Value(value) == DecimalValue(number[start..offset])
    {
      var ok;
      value, ok := AccumulateDigit(number, start, offset, value, x);
      if !ok {
        assert number[start..][offset - start] == number[offset];
        return BadNumberString;
      }
      offset := offset + 1;
    }
    assert number[start..offset] == number[start..];
    if offset > start {
      ValueInjective(value, FromInteger(DecimalValue(number[start..])));
    }
    r := Parsed(value);
  }

  /** One pass of the digit loop: times ten, then the digit added. */
  method AccumulateDigit(number: string, start: nat, offset: nat, value: BigInt, x: BigInt)
    returns (value': BigInt, ok: bool)
    requires start <= offset < |number| && AllDecimal(number[start..offset]) && x.digits == []
    requires offset == start ==> value == x
    requires offset > start ==> Valid(value) && Value(value) == DecimalValue(number[start..offset])
    ensures ok <==> IsDecimalDigit(number[offset])
    ensures ok ==> AllDecimal(number[start..offset + 1])
    ensures ok ==> Valid(value') && Value(value') == DecimalValue(number[start..offset + 1])
  {
    var ten := FromInteger(10);
    value' := Times(value, ten);
    ok := IsDecimalDigit(number[offset]);
    if ok {
      var digit := DigitValue(number[offset]);
      value' := Plus(value', FromInteger(digit));
      DecimalValueStep(number, start, offset);
    }
  }

  lemma DecimalValueStep(number: string, start: nat, offset: nat)
    requires start <= offset < |number| && AllDecimal(number[start..offset])
    requires IsDecimalDigit(number[offset])
    ensures AllDecimal(number[start..offset + 1])
    ensures DecimalValue(number[start..offset + 1])
      == DecimalValue(number[start..offset]) * 10 + DigitValue(number[offset])
  {
    assert number[start..offset + 1][..offset - start] == number[start..offset];
  }

  /** The sign of the token and where its digits start. */
  method ReadSign(number: string) returns (negative: bool, offset: nat)
    ensures negative <==> Negated(number)
    ensures offset == SignLength(number)
  {
    negative := false;
    offset := 0;
    if |number| > 0 {
      if number[offset] == '-' {
        negative := true;
        offset := offset + 1;
      } else if number[offset] == '+' {
        offset := offset + 1;
      }
    }
  }

  /** The constructor as written: the sign is stored before the digit
      loop starts from zero. */
  method ParseAsWritten(text: string) returns (r: Parse)
    ensures r == StringValueAsWritten(text)
  {
    var number := Token(text);
    var negative, offset := ReadSign(number);
    r := AccumulateDigits(number, offset, BigInt([], !negative));
  }

  /** The constructor with the sign applied once the digits are read. */
  method ParseString(text: string) returns (r: Parse)
    ensures r == StringValue(text)
  {
    var number := Token(text);
    var negative, offset := ReadSign(number);
    r := AccumulateDigits(number, offset, BigInt([], true));
    if r.Parsed? {
      ghost var magnitude: int := DecimalValue(Body(number));
      assert Valid(r.value) && Value(r.value) == magnitude;
      if negative {
        r := Parsed(Neg(r.value));
      }
      ValueInjective(r.value, FromInteger(if negative then -magnitude else magnitude));
    }
  }

  // ---------------------------------------------------------------------
  // Decimal text of a number, the constructor's inverse.

  function DigitChar(d: int): (c: char)
    requires 0 <= d < 10
    ensures IsDecimalDigit(c) && DigitValue(c) == d
  {
    ('0' as int + d) as char
  }

  /** The decimal digits of n, most significant first, without leading
      zeros. */
  function DecimalText(n: nat): (s: string)
    ensures |s| > 0 && AllDecimal(s)
    ensures forall i :: 0 <= i < |s| ==> !IsSpace(s[i]) && s[i] != '-' && s[i] != '+'
  {
    if n < 10 then [DigitChar(n)] else DecimalText(n / 10) + [DigitChar(n % 10)]
  }

  lemma {:induction false} DecimalTextValue(n: nat)
    ensures DecimalValue(DecimalText(n)) == n
  {
    var s := DecimalText(n);
    if n >= 10 {
      DecimalTextValue(n / 10);
      assert s[..|s| - 1] == DecimalText(n / 10);
    }
  }

  /** A word without white space is its own token. */
  lemma {:induction false} WordWhole(s: string)
    requires forall i :: 0 <= i < |s| ==> !IsSpace(s[i])
    ensures Word(s) == s
  {
    if |s| > 0 {
      WordWhole(s[1..]);
    }
  }

  /** Reading back the decimal text of a number, with or without a '-',
      gives that number. */
  lemma ParseDecimalText(n: nat)
    ensures StringValue(DecimalText(n)) == Parsed(FromInteger(n))
    ensures StringValue("-" + DecimalText(n)) == Parsed(FromInteger(-(n as int)))
  {
    var s := DecimalText(n);
    DecimalTextValue(n);
    WordWhole(s);
    assert Token(s) == s && Body(s) == s;
    var m := "-" + s;
    WordWhole(m);
    assert SkipSpace(m) == m;
    assert Token(m) == m && Body(m) == s;
  }

  /** The text of a negative number, "-5" say, as written reads as its
      magnitude, where the negative number was meant. */
  lemma NegativeTextLosesSign(n: nat)
    requires n > 0
    ensures StringValueAsWritten("-" + DecimalText(n)) == Parsed(FromInteger(n))
    ensures StringValue("-" + DecimalText(n)) == Parsed(FromInteger(-(n as int)))
    ensures FromInteger(n) != FromInteger(-(n as int))
  {
    NegativeToken(n);
    DecimalTextValue(n);
    ParseDecimalText(n);
    assert FromInteger(n).sign != FromInteger(-(n as int)).sign;
  }

  lemma NegativeToken(n: nat)
    ensures Token("-" + DecimalText(n)) == "-" + DecimalText(n)
    ensures Body("-" + DecimalText(n)) == DecimalText(n)
  {
    var m := "-" + DecimalText(n);
    WordWhole(m);
    assert SkipSpace(m) == m;
  }

  /** "-" as written reads as a zero with a negative sign, a value no
      other operation produces. */
  lemma LoneMinusAsWritten()
    ensures StringValueAsWritten("-") == Parsed(BigInt([], false))
    ensures !Valid(BigInt([], false))
    ensures StringValue("-") == Parsed(FromInteger(0))
  {
    var m := "-";
    WordWhole(m);
    assert Token(m) == m && Body(m) == "";
  }
}
