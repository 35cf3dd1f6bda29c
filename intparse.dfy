/** `parseIntInput` (src/utils.js:34-43) and the part of JavaScript's
    `parseInt(text, 10)` it relies on. */
module IntParse {
  import opened Errors
  import opened JsText

  predicate IsDigit(c: char)
  {
    '0' <= c <= '9'
  }

  predicate AllDigits(s: string)
  {
    forall i :: 0 <= i < |s| ==> IsDigit(s[i])
  }

  /** The longest prefix of decimal digits. */
  function LeadingDigits(s: string): (d: string)
    ensures |d| <= |s| && AllDigits(d)
    ensures |d| < |s| ==> !IsDigit(s[|d|])
  {
    if s != [] && IsDigit(s[0]) then [s[0]] + LeadingDigits(s[1..]) else []
  }

  lemma {:induction false} LeadingDigitsIsPrefix(s: string)
    ensures LeadingDigits(s) == s[..|LeadingDigits(s)|]
  {
    if s != [] && IsDigit(s[0]) {
      LeadingDigitsIsPrefix(s[1..]);
    }
  }

  /** The value of a decimal digit string, most significant digit first. */
  function DigitsValue(ds: string): nat
    requires AllDigits(ds)
  {
    if ds == [] then 0
    else 10 * DigitsValue(ds[..|ds| - 1]) + (ds[|ds| - 1] as int - '0' as int)
  }

  /** `parseInt(text, 10)`: skip leading whitespace, take an optional sign and
      the longest run of decimal digits after it; `None` stands for NaN. */
  function ParseInt(text: string): Option<int>
  {
    ParseSigned(TrimStart(text))
  }

  /** `parseInt` after the leading whitespace: an optional sign, then the
      longest run of digits. */
  function ParseSigned(t: string): Option<int>
  {
    if t != [] && t[0] == '-' then Negate(ParseUnsigned(t[1..]))
    else if t != [] && t[0] == '+' then ParseUnsigned(t[1..])
    else ParseUnsigned(t)
  }

  /** The value of the longest run of digits, or nothing without digits. */
  function ParseUnsigned(u: string): Option<int>
  {
    var digits := LeadingDigits(u);
    if digits == [] then None else Some(DigitsValue(digits))
  }

  function Negate(value: Option<int>): Option<int>
  {
    match value
    case None => None
    case Some(v) => Some(-v)
  }

  /** `parseIntInput(valueString, defaultValue)` */
  function ParseIntInput(valueString: string, defaultValue: int): (r: Result<int>)
    ensures valueString == [] ==> r == Success(defaultValue)
    ensures r.Failure? ==> valueString != [] && r.error == InvalidInteger(valueString)
  {
    if valueString == [] then Success(defaultValue)
    else
      match ParseInt(valueString)
      case None => Failure(InvalidInteger(valueString))
      case Some(value) => Success(value)
  }

  function DigitChar(d: nat): char
    requires d < 10
  {
    ('0' as int + d) as char
  }

  /** Decimal rendering of a natural number, without leading zeros. */
  function NatToString(n: nat): (s: string)
    ensures s != [] && AllDigits(s)
  {
    if n < 10 then [DigitChar(n)] else NatToString(n / 10) + [DigitChar(n % 10)]
  }

  /** Decimal rendering of an integer, with a minus sign when negative. */
  function IntToString(n: int): (s: string)
    ensures s != [] && (n < 0 ==> s[0] == '-') && (n >= 0 ==> IsDigit(s[0]))
  {
    if n < 0 then "-" + NatToString(-n) else NatToString(n)
  }

  lemma {:induction false} NatToStringValue(n: nat)
    ensures DigitsValue(NatToString(n)) == n
  {
    if n >= 10 {
      NatToStringValue(n / 10);
      var s := NatToString(n);
      assert s[..|s| - 1] == NatToString(n / 10);
    }
  }

  lemma {:induction false} LeadingDigitsOf(digits: string, rest: string)
    requires AllDigits(digits)
    requires rest == [] || !IsDigit(rest[0])
    ensures LeadingDigits(digits + rest) == digits
  {
    if digits != [] {
      assert (digits + rest)[1..] == digits[1..] + rest;
      LeadingDigitsOf(digits[1..], rest);
      assert digits == [digits[0]] + digits[1..];
    } else {
      assert digits + rest == rest;
    }
  }

  /** An integer written in decimal parses back to itself, after any leading
      whitespace and before any text that does not continue the digits. */
  lemma {:induction false} IntRoundTrip(ws: string, n: int, rest: string, defaultValue: int)
    requires AllWhitespace(ws)
    requires rest == [] || !IsDigit(rest[0])
    ensures ParseIntInput(ws + IntToString(n) + rest, defaultValue) == Success(n)
  {
    var text := ws + IntToString(n) + rest;
    var t := IntToString(n) + rest;
    assert text == ws + t;
    TrimStartPadded(ws, t);
    SignedRoundTrip(n, rest);
  }

  /** The decimal text of an integer holds a minus sign and digits only. */
  lemma {:induction false} NumberText(n: int)
    ensures forall i :: 0 <= i < |IntToString(n)| ==> IntToString(n)[i] == '-' || IsDigit(IntToString(n)[i])
  {
    if n < 0 {
      var digits := NatToString(-n);
      assert IntToString(n) == ['-'] + digits;
    }
  }

  /** The decimal text of an integer, followed by a non-digit tail, reads
      back as that integer once the leading whitespace is gone. */
  lemma {:induction false} SignedRoundTrip(n: int, rest: string)
    requires rest == [] || !IsDigit(rest[0])
    ensures ParseSigned(IntToString(n) + rest) == Some(n)
  {
    var text := IntToString(n) + rest;
    var digits := NatToString(if n < 0 then -n else n);
    NatToStringValue(if n < 0 then -n else n);
    if n < 0 {
      assert text == ['-'] + (digits + rest) by {
        assert IntToString(n) == ['-'] + digits;
      }
      ParseNegative(digits, rest);
    } else {
      assert text == digits + rest;
      ParseNonNegative(digits, rest);
    }
  }

  /** Digits followed by something else parse to their value. */
  lemma {:induction false} ParseNonNegative(digits: string, rest: string)
    requires digits != [] && AllDigits(digits)
    requires rest == [] || !IsDigit(rest[0])
    ensures ParseSigned(digits + rest) == Some(DigitsValue(digits))
  {
    assert (digits + rest)[0] == digits[0];
    UnsignedDigits(digits, rest);
  }

  /** A minus sign and digits followed by something else parse to the
      negated value of the digits. */
  lemma {:induction false} ParseNegative(digits: string, rest: string)
    requires digits != [] && AllDigits(digits)
    requires rest == [] || !IsDigit(rest[0])
    ensures ParseSigned(['-'] + (digits + rest)) == Some(0 - DigitsValue(digits))
  {
    UnsignedDigits(digits, rest);
    MinusSign(digits + rest, DigitsValue(digits));
  }

  /** Without a sign, the digits up to the first non-digit give the value. */
  lemma {:induction false} UnsignedDigits(digits: string, rest: string)
    requires digits != [] && AllDigits(digits)
    requires rest == [] || !IsDigit(rest[0])
    ensures ParseUnsigned(digits + rest) == Some(DigitsValue(digits))
  {
    LeadingDigitsOf(digits, rest);
  }

  /** A minus sign directly before a run of digits negates the value of that run. */
  lemma {:induction false} MinusSign(unsigned: string, value: int)
    requires ParseUnsigned(unsigned) == Some(value)
    ensures ParseSigned(['-'] + unsigned) == Some(0 - value)
  {
    var t := ['-'] + unsigned;
    assert t[0] == '-' && t[1..] == unsigned;
  }

  /** A plus sign is skipped: the text after it is read as it stands, and
      a sign without digits after it is NaN. */
  lemma {:induction false} PlusSign(unsigned: string)
    ensures ParseSigned(['+'] + unsigned) == ParseUnsigned(unsigned)
    ensures ParseSigned(['+'] + unsigned) == None <==> LeadingDigits(unsigned) == []
  {
    var t := ['+'] + unsigned;
    assert t[0] == '+' && t[1..] == unsigned;
  }

  /** The signs `parseInt` accepts in front of the digits: none, `+` or `-`. */
  predicate IsSign(sign: string)
  {
    sign == [] || sign == "+" || sign == "-"
  }

  /** The value of the digits, negated after a minus sign. */
  function SignedValue(sign: string, digits: string): int
    requires AllDigits(digits)
  {
    if sign == "-" then 0 - DigitsValue(digits) else DigitsValue(digits)
  }

  /** Leading whitespace, an optional sign and a run of digits read as the
      signed value of the digits, whatever follows them. */
  lemma {:induction false} LeadingInteger(ws: string, sign: string, digits: string, rest: string, defaultValue: int)
    requires AllWhitespace(ws) && IsSign(sign)
    requires digits != [] && AllDigits(digits)
    requires rest == [] || !IsDigit(rest[0])
    ensures ParseIntInput(ws + sign + digits + rest, defaultValue) == Success(SignedValue(sign, digits))
  {
    var t := sign + (digits + rest);
    assert ws + sign + digits + rest == ws + t;
    SignedDigits(sign, digits, rest);
    TrimStartPadded(ws, t);
  }

  /** After the whitespace: an optional sign and a run of digits. */
  lemma {:induction false} SignedDigits(sign: string, digits: string, rest: string)
    requires IsSign(sign)
    requires digits != [] && AllDigits(digits)
    requires rest == [] || !IsDigit(rest[0])
    ensures sign + (digits + rest) != [] && !IsWhitespace((sign + (digits + rest))[0])
    ensures ParseSigned(sign + (digits + rest)) == Some(SignedValue(sign, digits))
  {
    if sign == "-" {
      ParseNegative(digits, rest);
    } else if sign == "+" {
      UnsignedDigits(digits, rest);
      PlusSign(digits + rest);
    } else {
      assert sign + (digits + rest) == digits + rest;
      ParseNonNegative(digits, rest);
    }
  }

  /** The converse: every non-empty text `parseIntInput` accepts is leading
      whitespace, an optional sign, at least one digit and a tail that does
      not continue the digits, and it reads as the signed value of those
      digits. Any other non-empty text is rejected. */
  lemma {:induction false} AcceptedShape(text: string, defaultValue: int)
    returns (ws: string, sign: string, digits: string, rest: string)
    requires text != [] && ParseIntInput(text, defaultValue).Success?
    ensures text == ws + sign + digits + rest
    ensures AllWhitespace(ws) && IsSign(sign)
    ensures digits != [] && AllDigits(digits) && (rest == [] || !IsDigit(rest[0]))
    ensures ParseIntInput(text, defaultValue) == Success(SignedValue(sign, digits))
  {
    var n := LeadingWhitespace(text);
    LeadingStops(text);
    ws := text[..n];
    var t := text[n..];
    assert t == TrimStart(text);
    sign, digits, rest := SignedShape(t);
    assert text == ws + t;
    Regroup(ws, sign, digits, rest);
    LeadingInteger(ws, sign, digits, rest, defaultValue);
  }

  lemma {:induction false} Regroup(a: string, b: string, c: string, d: string)
    ensures a + (b + (c + d)) == a + b + c + d
  {
    assert b + (c + d) == (b + c) + d;
    assert a + ((b + c) + d) == (a + (b + c)) + d;
  }

  /** A text `parseInt` reads after the whitespace is an optional sign, a
      run of digits and a tail that does not continue them. */
  lemma {:induction false} SignedShape(t: string) returns (sign: string, digits: string, rest: string)
    requires ParseSigned(t).Some?
    ensures t == sign + (digits + rest) && IsSign(sign)
    ensures digits != [] && AllDigits(digits) && (rest == [] || !IsDigit(rest[0]))
  {
    if t != [] && (t[0] == '-' || t[0] == '+') {
      sign := t[..1];
      assert ParseUnsigned(t[1..]).Some?;
      digits, rest := UnsignedShape(t[1..]);
      assert t == t[..1] + t[1..];
    } else {
      sign := [];
      digits, rest := UnsignedShape(t);
      assert t == [] + t;
    }
  }

  /** A text with a leading run of digits is those digits and a tail that
      does not continue them. */
  lemma {:induction false} UnsignedShape(u: string) returns (digits: string, rest: string)
    requires ParseUnsigned(u).Some?
    ensures u == digits + rest
    ensures digits != [] && AllDigits(digits) && (rest == [] || !IsDigit(rest[0]))
  {
    digits := LeadingDigits(u);
    LeadingDigitsIsPrefix(u);
    rest := u[|digits|..];
    assert rest != [] ==> rest[0] == u[|digits|];
    assert u == u[..|digits|] + u[|digits|..];
  }

  /** A text accepted with a value starts with whitespace, a digit, or a
      sign followed by a digit. */
  lemma {:induction false} AcceptedStart(text: string, defaultValue: int)
    requires text != []
    ensures ParseIntInput(text, defaultValue).Success? ==>
      || IsWhitespace(text[0]) || IsDigit(text[0])
      || ((text[0] == '-' || text[0] == '+') && |text| > 1 && IsDigit(text[1]))
  {
    if ParseIntInput(text, defaultValue).Success? {
      var ws, sign, digits, rest := AcceptedShape(text, defaultValue);
      Regroup(ws, sign, digits, rest);
      var t := sign + (digits + rest);
      if ws != [] {
        assert text[0] == ws[0];
      } else {
        assert text == t;
        if sign != [] {
          assert t[0] == sign[0] && t[1] == (digits + rest)[0] == digits[0];
        } else {
          assert t == digits + rest;
          assert t[0] == digits[0];
        }
      }
    }
  }

  /** A non-empty text whose first character is none of those is rejected,
      even when digits come later. */
  lemma {:induction false} NoLeadingInteger(text: string, defaultValue: int)
    requires text != [] && !IsWhitespace(text[0]) && !IsDigit(text[0])
    requires (text[0] != '-' && text[0] != '+') || |text| == 1 || !IsDigit(text[1])
    ensures ParseIntInput(text, defaultValue) == Failure(InvalidInteger(text))
  {
    AcceptedStart(text, defaultValue);
  }

  /** Leading zeros are read past: "007" is 7. */
  lemma {:induction false} LeadingZerosExample()
    ensures ParseIntInput("007", 0) == Success(7)
  {
    ZerosSevenValue();
    LeadingInteger([], [], "007", [], 0);
    assert [] + [] + "007" + [] == "007";
  }

  /** A plus sign is accepted: "+7" is 7. */
  lemma {:induction false} PlusExample()
    ensures ParseIntInput("+7", 0) == Success(7)
  {
    var seven := "7";
    assert DigitsValue(seven) == 7 by {
      assert seven[..0] == [];
    }
    assert SignedValue("+", seven) == 7;
    assert [] + "+" + seven + [] == "+7";
    LeadingInteger([], "+", seven, [], 0);
  }

  /** Whitespace, a minus sign, leading zeros and a non-digit tail:
      "  -007x" is -7. */
  lemma {:induction false} PaddedNegativeExample()
    ensures ParseIntInput("  -007x", 0) == Success(-7)
  {
    ZerosSevenValue();
    assert SignedValue("-", "007") == -7;
    var spaces := "  ";
    assert AllWhitespace(spaces) by {
      assert spaces[0] == ' ' && spaces[1] == ' ';
    }
    assert spaces + "-" + "007" + "x" == "  -007x";
    LeadingInteger(spaces, "-", "007", "x", 0);
  }

  lemma {:induction false} ZerosSevenValue()
    ensures DigitsValue("007") == 7
  {
    var zeros := "007";
    assert DigitsValue(zeros[..1]) == 0 by {
      assert zeros[..1][..0] == [];
    }
    assert DigitsValue(zeros[..2]) == 0 by {
      assert zeros[..2][..1] == zeros[..1];
    }
    assert zeros[..|zeros| - 1] == zeros[..2];
  }

  /** Digits after a non-numeric start do not rescue the text. */
  lemma {:induction false} RejectedExamples()
    ensures ParseIntInput("abc1", 0) == Failure(InvalidInteger("abc1"))
    ensures ParseIntInput("--1", 0) == Failure(InvalidInteger("--1"))
  {
    NoLeadingInteger("abc1", 0);
    NoLeadingInteger("--1", 0);
  }

  /** A non-empty text without a single digit is rejected. */
  lemma {:induction false} NoDigitsRejected(text: string, defaultValue: int)
    requires text != []
    requires forall i :: 0 <= i < |text| ==> !IsDigit(text[i])
    ensures ParseIntInput(text, defaultValue) == Failure(InvalidInteger(text))
  {
    var t := TrimStart(text);
    var unsigned := if t != [] && (t[0] == '-' || t[0] == '+') then t[1..] else t;
    assert unsigned != [] ==> unsigned[0] in text;
    assert LeadingDigits(unsigned) == [];
  }
}
