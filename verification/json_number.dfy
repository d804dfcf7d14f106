/** The lexical side of number literals: the maximal run the reader consumes,
    `Integer.parseInt` on that run, and which runs `Double.parseDouble`
    accepts. `ShowInt` is `Integer.toString`, the reference rendering that
    `ParseInt` inverts. */
module JsonNumber {
  import opened Wrappers

  /** Java's `int`. */
  newtype int32 = x: int | -0x8000_0000 <= x < 0x8000_0000

  predicate IsDigit(c: char) {
    '0' <= c <= '9'
  }

  /** The characters `parseNumber` keeps consuming. */
  predicate IsNumberChar(c: char) {
    IsDigit(c) || c == '.' || c == '-'
  }

  predicate AllDigits(ds: string) {
    forall k :: 0 <= k < |ds| ==> IsDigit(ds[k])
  }

  /** The end of the maximal run of number characters starting at `i`. */
  function NumberEnd(s: string, i: nat): (r: nat)
    requires i <= |s|
    ensures i <= r <= |s|
    ensures r < |s| ==> !IsNumberChar(s[r])
    decreases |s| - i
  {
    if i < |s| && IsNumberChar(s[i]) then NumberEnd(s, i + 1) else i
  }

  /** A run of number characters from `i` to `e` that stops at `e` is what
      `NumberEnd` finds. */
  lemma {:induction false} NumberEndAt(s: string, i: nat, e: nat)
    requires i <= e <= |s|
    requires forall k :: i <= k < e ==> IsNumberChar(s[k])
    requires e < |s| ==> !IsNumberChar(s[e])
    ensures NumberEnd(s, i) == e
    decreases e - i
  {
    if i < e {
      NumberEndAt(s, i + 1, e);
    }
  }

  /** Everything `NumberEnd` skips is a number character. */
  lemma NumberEndRun(s: string, i: nat)
    requires i <= |s|
    ensures forall k :: i <= k < NumberEnd(s, i) ==> IsNumberChar(s[k])
    decreases |s| - i
  {
    if i < |s| && IsNumberChar(s[i]) {
      NumberEndRun(s, i + 1);
    }
  }

  function DigitValue(c: char): (d: nat)
    requires IsDigit(c)
    ensures d < 10
  {
    c as int - '0' as int
  }

  function DigitChar(d: nat): (c: char)
    requires d < 10
    ensures IsDigit(c) && DigitValue(c) == d
  {
    ('0' as int + d) as char
  }

  /** The value of a run of decimal digits, most significant first. */
  function DigitsValue(ds: string): nat
    requires AllDigits(ds)
  {
    if |ds| == 0 then 0 else DigitsValue(ds[..|ds| - 1]) * 10 + DigitValue(ds[|ds| - 1])
  }

  /** The text `Integer.parseInt` accepts before its range check: an optional
      minus sign followed by at least one digit. A plus sign never reaches it
      here, since it is not a number character. */
  predicate IsSignedDecimal(lex: string) {
    if |lex| > 0 && lex[0] == '-' then |lex| > 1 && AllDigits(lex[1..])
    else |lex| > 0 && AllDigits(lex)
  }

  function SignedValue(lex: string): int
    requires IsSignedDecimal(lex)
  {
    if lex[0] == '-' then -(DigitsValue(lex[1..]) as int) else DigitsValue(lex)
  }

  predicate InInt32(x: int) {
    -0x8000_0000 <= x < 0x8000_0000
  }

  datatype NumberError = NumberFormat

  /** `Integer.parseInt`: a signed decimal whose value fits in 32 bits. Any
      other text, including a lone `-`, a `-` after the first character and
      any value beyond the `int` range, raises `NumberFormatException`. */
  function ParseInt(lex: string): (r: Result<int32, NumberError>)
    ensures r.Success? <==> IsSignedDecimal(lex) && InInt32(SignedValue(lex))
    ensures r.Success? ==> r.value as int == SignedValue(lex)
  {
    if IsSignedDecimal(lex) && InInt32(SignedValue(lex)) then
      Success(SignedValue(lex) as int32)
    else Failure(NumberFormat)
  }

  /** What `Integer.parseInt` accepts is, after the sign, some leading zeros
      followed by the decimal printing of the magnitude it returns; a
      negative result comes with a minus sign and a positive one without. */
  lemma ParseIntDigits(lex: string)
    ensures var r := ParseInt(lex);
      && (r.Success? ==> exists z: nat :: Unsigned(lex) == Zeros(z) + ShowNat(Magnitude(r.value)))
      && (r.Success? && r.value < 0 ==> lex[0] == '-')
      && (r.Success? && r.value > 0 ==> lex[0] != '-')
  {
    if ParseInt(lex).Success? {
      DigitsForm(Unsigned(lex));
    }
  }

  /** A run of `n` zero digits. */
  function Zeros(n: nat): (r: string)
    ensures |r| == n && forall k :: 0 <= k < n ==> r[k] == '0'
  {
    seq(n, _ => '0')
  }

  /** The absolute value of an `int`, which `Integer.toString` writes after
      the sign. */
  function Magnitude(x: int32): (m: nat)
    ensures m as int == x as int || m as int == -(x as int)
  {
    if x < 0 then -(x as int) else x as int
  }

  /** Digits whose value is zero are all `0`. */
  lemma {:induction false} ZeroDigits(ds: string)
    requires AllDigits(ds) && DigitsValue(ds) == 0
    ensures ds == Zeros(|ds|)
    decreases |ds|
  {
    if |ds| > 0 {
      var init := ds[..|ds| - 1];
      ZeroDigits(init);
      assert ds == init + [ds[|ds| - 1]];
    }
  }

  /** Every non-empty run of digits is some leading zeros followed by
      `Integer.toString` of its value. */
  lemma {:induction false} DigitsForm(ds: string)
    requires AllDigits(ds) && |ds| > 0
    ensures exists z: nat :: ds == Zeros(z) + ShowNat(DigitsValue(ds))
    decreases |ds|
  {
    var init, c := ds[..|ds| - 1], ds[|ds| - 1];
    var n, d := DigitsValue(ds), DigitValue(c);
    assert ds == init + [c];
    assert DigitChar(d) == c;
    if DigitsValue(init) == 0 {
      ZeroDigits(init);
      assert ShowNat(n) == [c];
      assert ds == Zeros(|init|) + ShowNat(n);
    } else {
      DigitsForm(init);
      var z: nat :| init == Zeros(z) + ShowNat(DigitsValue(init));
      assert n / 10 == DigitsValue(init) && n % 10 == d;
      assert ShowNat(n) == ShowNat(DigitsValue(init)) + [c];
      assert ds == Zeros(z) + ShowNat(n);
    }
  }

  function CountChar(s: string, c: char): nat {
    if |s| == 0 then 0 else (if s[0] == c then 1 else 0) + CountChar(s[1..], c)
  }

  /** The runs of digits, `.` and `-` that `Double.parseDouble` accepts: an
      optional leading minus sign, then digits with at most one point among
      them and at least one digit in all. A second point or a later minus
      sign raises `NumberFormatException`. */
  predicate IsDoubleLexeme(lex: string) {
    var body := Unsigned(lex);
    && (forall k :: 0 <= k < |body| ==> IsDigit(body[k]) || body[k] == '.')
    && CountChar(body, '.') <= 1
    && (exists k :: 0 <= k < |body| && IsDigit(body[k]))
  }

  lemma {:induction false} CountCharAppend(a: string, b: string, c: char)
    ensures CountChar(a + b, c) == CountChar(a, c) + CountChar(b, c)
    decreases |a|
  {
    if |a| > 0 {
      assert (a + b)[1..] == a[1..] + b;
      CountCharAppend(a[1..], b, c);
    } else {
      assert a + b == b;
    }
  }

  /** A character occurs nowhere exactly when it is counted zero times. */
  lemma {:induction false} CountCharZero(s: string, c: char)
    ensures CountChar(s, c) == 0 <==> forall k :: 0 <= k < |s| ==> s[k] != c
    decreases |s|
  {
    if |s| > 0 {
      CountCharZero(s[1..], c);
      assert forall k :: 1 <= k < |s| ==> s[k] == s[1..][k - 1];
    }
  }

  /** An occurrence at `j` splits the count into the part before and after. */
  lemma CountCharAt(s: string, c: char, j: nat)
    requires j < |s| && s[j] == c
    ensures CountChar(s, c) == CountChar(s[..j], c) + 1 + CountChar(s[j + 1..], c)
  {
    assert s == s[..j] + ([s[j]] + s[j + 1..]);
    CountCharAppend(s[..j], [s[j]] + s[j + 1..], c);
    CountCharAppend([s[j]], s[j + 1..], c);
  }

  /** The decimal form `Double.parseDouble` documents, restricted to the
      characters a number run can hold: an optional minus sign, digits, a
      point and digits, with at least one digit on either side. */
  predicate PointedDecimal(lex: string, sign: string, a: string, b: string) {
    && (sign == "" || sign == "-")
    && AllDigits(a) && AllDigits(b) && |a| + |b| > 0
    && lex == sign + a + "." + b
  }

  /** What `IsDoubleLexeme` looks at: the run without its leading minus
      sign. */
  function Unsigned(lex: string): (body: string)
    ensures |body| <= |lex|
  {
    if |lex| > 0 && lex[0] == '-' then lex[1..] else lex
  }

  /** A run holding its only point at `d` has no point anywhere else. */
  lemma OnlyPoint(body: string, d: nat)
    requires d < |body| && body[d] == '.' && CountChar(body, '.') <= 1
    ensures forall k :: 0 <= k < |body| && k != d ==> body[k] != '.'
  {
    var a, b := body[..d], body[d + 1..];
    CountCharAt(body, '.', d);
    CountCharZero(a, '.');
    CountCharZero(b, '.');
    forall k | 0 <= k < |body| && k != d
      ensures body[k] != '.'
    {
      if k < d {
        assert body[k] == a[k];
      } else {
        assert body[k] == b[k - d - 1];
      }
    }
  }

  /** Digits and one point, with some digit: around the point are digits
      only, and at least one of them. */
  lemma PointSplit(body: string, d: nat)
    requires d < |body| && body[d] == '.' && CountChar(body, '.') <= 1
    requires forall k :: 0 <= k < |body| ==> IsDigit(body[k]) || body[k] == '.'
    requires exists k :: 0 <= k < |body| && IsDigit(body[k])
    ensures AllDigits(body[..d]) && AllDigits(body[d + 1..])
    ensures d + 1 < |body| || d > 0
    ensures body == body[..d] + "." + body[d + 1..]
  {
    var a, b := body[..d], body[d + 1..];
    OnlyPoint(body, d);
    forall k | 0 <= k < |a|
      ensures IsDigit(a[k])
    {
      assert a[k] == body[k];
    }
    forall k | 0 <= k < |b|
      ensures IsDigit(b[k])
    {
      assert b[k] == body[d + 1 + k];
    }
    var k :| 0 <= k < |body| && IsDigit(body[k]);
    assert k != d;
    assert body == a + [body[d]] + b;
  }

  /** Every run `IsDoubleLexeme` accepts with a point in it has the decimal
      form. */
  lemma DoubleLexemeHasShape(lex: string, d: nat)
    requires d < |Unsigned(lex)| && Unsigned(lex)[d] == '.'
    requires IsDoubleLexeme(lex)
    ensures exists sign, a, b :: PointedDecimal(lex, sign, a, b)
  {
    var body := Unsigned(lex);
    var sign := if |lex| > 0 && lex[0] == '-' then "-" else "";
    assert lex == sign + body;
    PointSplit(body, d);
    assert PointedDecimal(lex, sign, body[..d], body[d + 1..]);
  }

  /** Every run of the decimal form is accepted by `IsDoubleLexeme`. */
  lemma ShapeIsDoubleLexeme(lex: string, sign: string, a: string, b: string)
    requires PointedDecimal(lex, sign, a, b)
    ensures IsDoubleLexeme(lex)
  {
    var body := a + "." + b;
    if sign == "-" {
      assert lex == "-" + body;
    } else {
      assert lex == body;
      assert lex[0] == '.' || IsDigit(lex[0]);
    }
    assert Unsigned(lex) == body;
    forall k | 0 <= k < |body|
      ensures IsDigit(body[k]) || body[k] == '.'
    {
      if k < |a| {
        assert body[k] == a[k];
      } else if k > |a| {
        assert body[k] == b[k - |a| - 1];
      }
    }
    CountCharZero(a, '.');
    CountCharZero(b, '.');
    CountCharAt(body, '.', |a|);
    assert body[..|a|] == a && body[|a| + 1..] == b;
    if |a| > 0 {
      assert IsDigit(body[0]);
    } else {
      assert IsDigit(body[1]);
    }
  }

  /** Runs with a point that `Double.parseDouble` takes: the point may open
      or close the digits. */
  lemma DoubleLexemeAccepts()
    ensures IsDoubleLexeme("3.14") && IsDoubleLexeme("-0.5")
    ensures IsDoubleLexeme(".5") && IsDoubleLexeme("5.")
  {
    ShapeIsDoubleLexeme("3.14", "", "3", "14");
    ShapeIsDoubleLexeme("-0.5", "-", "0", "5");
    ShapeIsDoubleLexeme(".5", "", "", "5");
    ShapeIsDoubleLexeme("5.", "", "5", "");
  }

  /** Runs with a point that `Double.parseDouble` rejects: no digit at all,
      a second point, and a minus sign after the first character. */
  lemma DoubleLexemeRejects()
    ensures !IsDoubleLexeme(".") && !IsDoubleLexeme("-.")
    ensures !IsDoubleLexeme("1.2.3") && !IsDoubleLexeme("1.-2")
  {
    assert Unsigned(".") == "." && Unsigned("-.") == ".";
    assert !IsDigit("."[0]);
    assert Unsigned("1.2.3") == "1.2.3";
    CountCharAt("1.2.3", '.', 1);
    assert "1.2.3"[2..] == "2.3";
    CountCharAt("2.3", '.', 1);
    assert Unsigned("1.-2") == "1.-2" && "1.-2"[2] == '-';
  }

  /** `Integer.toString` on a non-negative value. */
  function ShowNat(n: nat): (r: string)
    ensures |r| > 0 && IsDigit(r[0])
  {
    if n < 10 then [DigitChar(n)] else ShowNat(n / 10) + [DigitChar(n % 10)]
  }

  /** `Integer.toString` writes decimal digits only. */
  lemma {:induction false} ShowNatDigits(n: nat)
    ensures AllDigits(ShowNat(n))
  {
    if n >= 10 {
      ShowNatDigits(n / 10);
    }
  }

  /** `Integer.toString`. */
  function ShowInt(x: int32): (r: string)
    ensures |r| > 0 && (IsDigit(r[0]) || r[0] == '-')
  {
    if x < 0 then "-" + ShowNat(-(x as int)) else ShowNat(x as nat)
  }

  /** The text of an `int` is a run of number characters without a point. */
  lemma ShowIntChars(x: int32)
    ensures forall k :: 0 <= k < |ShowInt(x)| ==> IsNumberChar(ShowInt(x)[k])
    ensures '.' !in ShowInt(x)
  {
    ShowNatDigits(if x < 0 then -(x as int) else x as nat);
  }

  lemma {:induction false} ShowNatValue(n: nat)
    ensures AllDigits(ShowNat(n)) && DigitsValue(ShowNat(n)) == n
    decreases n
  {
    ShowNatDigits(n);
    var r := ShowNat(n);
    if n >= 10 {
      ShowNatValue(n / 10);
      assert r[..|r| - 1] == ShowNat(n / 10);
    }
  }

  /** `Integer.toString` writes a signed decimal of the same value. */
  lemma ShowIntDecimal(x: int32)
    ensures IsSignedDecimal(ShowInt(x)) && SignedValue(ShowInt(x)) == x as int
  {
    var r := ShowInt(x);
    if x < 0 {
      ShowNatValue(-(x as int));
      assert r[1..] == ShowNat(-(x as int));
    } else {
      ShowNatValue(x as nat);
      assert r[0] != '-';
    }
  }

  /** `Integer.parseInt` inverts `Integer.toString` on every `int`. */
  lemma ParseShowInt(x: int32)
    ensures ParseInt(ShowInt(x)) == Success(x)
  {
    ShowIntDecimal(x);
  }

  /** A lone minus sign and a minus sign after the first character are not
      signed decimals. */
  lemma ParseIntRejectsStrayMinus()
    ensures ParseInt("-").Failure?
    ensures ParseInt("1-2").Failure?
  {
    assert "1-2"[1] == '-';
  }

  /** One past the largest `int` overflows. */
  lemma ParseIntRejectsOverflow()
    ensures ParseInt("2147483648").Failure?
  {
    assert ShowNat(2) == "2";
    assert ShowNat(21) == "21";
    assert ShowNat(214) == "214";
    assert ShowNat(2147) == "2147";
    assert ShowNat(21474) == "21474";
    assert ShowNat(214748) == "214748";
    assert ShowNat(2147483) == "2147483";
    assert ShowNat(21474836) == "21474836";
    assert ShowNat(214748364) == "214748364";
    assert ShowNat(2147483648) == "2147483648";
    ShowNatValue(2147483648);
  }

  /** The most negative `int` is accepted: the range is asymmetric. */
  lemma ParseIntAcceptsMinimum()
    ensures ParseInt("-2147483648") == Success(-0x8000_0000)
  {
    assert ShowNat(2) == "2";
    assert ShowNat(21) == "21";
    assert ShowNat(214) == "214";
    assert ShowNat(2147) == "2147";
    assert ShowNat(21474) == "21474";
    assert ShowNat(214748) == "214748";
    assert ShowNat(2147483) == "2147483";
    assert ShowNat(21474836) == "21474836";
    assert ShowNat(214748364) == "214748364";
    assert ShowNat(2147483648) == "2147483648";
    ShowNatValue(2147483648);
    assert "-2147483648"[1..] == "2147483648";
  }

  /** Leading zeros are accepted and do not change the value. */
  lemma ParseIntLeadingZeros()
    ensures ParseInt("007") == Success(7)
  {
    assert "007"[..2] == "00";
    assert "00"[..1] == "0";
    assert "0"[..0] == "";
    assert DigitsValue("0") == 0;
    assert DigitsValue("00") == 0;
    assert DigitsValue("007") == 7;
  }
}
