/** stobiosf: a plain decimal number in text becomes a scaled integer. */
module DecimalText {
  import opened Common
  import opened ScaledInt

  /** Where the point stands; the length of the text when there is none. */
  function Point(s: string): (k: nat)
    ensures k <= |s| && '.' !in s[..k]
    ensures k < |s| ==> s[k] == '.'
  {
    if s == [] || s[0] == '.' then 0
    else
      var k := Point(s[1..]);
      assert s[..k + 1] == [s[0]] + s[1..][..k];
      k + 1
  }

  function Whole(s: string): string {
    s[..Point(s)]
  }

  predicate Negative(s: string) {
    s != [] && s[0] == '-'
  }

  function WholeDigits(s: string): string {
    if Negative(Whole(s)) then Whole(s)[1..] else Whole(s)
  }

  function WithoutZeros(s: string): (r: string)
    ensures r <= s && forall i :: |r| <= i < |s| ==> s[i] == '0'
    ensures r != [] ==> r[|r| - 1] != '0'
    ensures IsDigits(s) ==> IsDigits(r)
  {
    if s != [] && s[|s| - 1] == '0' then WithoutZeros(s[..|s| - 1]) else s
  }

  /** The digits behind the point, without the zeros at the end. */
  function Fraction(s: string): string {
    if Point(s) == |s| then [] else WithoutZeros(s[Point(s) + 1..])
  }

  /** An optional sign, digits, and at most nine significant digits behind the point. */
  predicate Plain(s: string) {
    && WholeDigits(s) != [] && IsDigits(WholeDigits(s))
    && (Point(s) < |s| ==> IsDigits(s[Point(s) + 1..]))
    && IsDigits(Fraction(s)) && |Fraction(s)| <= 9
  }

  /** The whole part as a signed number, as std::stoi reads it: "-0" is 0. */
  function WholeValue(s: string): int
    requires Plain(s)
  {
    if Negative(Whole(s)) then 0 - ValueOf(WholeDigits(s)) else ValueOf(WholeDigits(s))
  }

  function Signed(neg: bool, n: int): int {
    if neg then -n else n
  }

  /** What the text means, counted in units of its last significant digit. */
  function Meant(s: string): int
    requires Plain(s)
  {
    Signed(Negative(s), MeantSize(s))
  }

  function MeantSize(s: string): int
    requires Plain(s)
  {
    Raise(ValueOf(WholeDigits(s)), |Fraction(s)|) + ValueOf(Fraction(s))
  }

  /** What the method computes before it narrows the result to 32 bits. */
  function Sum(s: string): int
    requires Plain(s)
  {
    var raised, fraction := Raise(WholeValue(s), |Fraction(s)|), ValueOf(Fraction(s));
    if WholeValue(s) < 0 then raised - fraction else raised + fraction
  }

  /** The loop that strips zeros from the right. */
  method StripZeros(s: string) returns (r: string)
    ensures r == WithoutZeros(s)
  {
    r := s;
    while r != [] && r[|r| - 1] == '0'
      invariant WithoutZeros(s) == WithoutZeros(r)
      decreases |r|
    {
      r := r[..|r| - 1];
    }
  }

  /** stobiosf on plain decimals: no result exactly when the whole part or the sum is too large. */
  method Stobiosf(s: string) returns (r: Option<Scaled>)
    requires Plain(s)
    ensures r.Some? <==> InRange(WholeValue(s)) && Sum(s) <= INT32_MAX
    ensures r.Some? ==> r.value == Scaled(Narrow(Sum(s)), -|Fraction(s)|)
  {
    var comma := Point(s);
    var integerPart := WholeValue(s);
    if !InRange(integerPart) {
      return None;
    }
    var minus := integerPart < 0;
    if comma == |s| {
      NarrowKeeps(integerPart);
      return Some(Scaled(integerPart, 0));
    }
    var fraction := StripZeros(s[comma + 1..]);
    if fraction == [] {
      NarrowKeeps(integerPart);
      return Some(Scaled(integerPart, 0));
    }
    var fractionPart := ValueOf(fraction);
    var sum := integerPart;
    for i := 0 to |fraction|
      invariant sum == Raise(integerPart, i)
    {
      sum := sum * 10;
    }
    sum := if minus then sum - fractionPart else sum + fractionPart;
    if sum > INT32_MAX {
      return None;
    }
    return Some(Scaled(Narrow(sum), -|fraction|));
  }

  lemma {:induction false} RaiseNegates(v: int, k: nat)
    ensures Raise(-v, k) == -Raise(v, k)
  {
    if k > 0 {
      RaiseNegates(v, k - 1);
    }
  }

  lemma {:induction false} LastDigitCounts(s: string)
    requires IsDigits(s) && s != [] && s[|s| - 1] != '0'
    ensures ValueOf(s) % 10 != 0
  {
  }

  /** The sign of the text is the sign of its whole part. */
  lemma SignOfWhole(s: string)
    requires Plain(s)
    ensures Negative(s) <==> Negative(Whole(s))
  {
    assert Whole(s) != [];
    assert Whole(s)[0] == s[0];
  }

  /** The sum is what the text means, exactly unless the whole part is "-0" and a fraction follows. */
  lemma SumIsMeant(s: string)
    requires Plain(s)
    ensures Sum(s) == Meant(s) <==> !(Negative(s) && ValueOf(WholeDigits(s)) == 0 && Fraction(s) != [])
  {
    var n, f := |Fraction(s)|, Fraction(s);
    SignOfWhole(s);
    RaiseNegates(ValueOf(WholeDigits(s)), n);
    if f != [] {
      LastDigitCounts(f);
      RaiseOfZero(n);
    }
  }

  lemma {:induction false} RaiseOfZero(k: nat)
    ensures Raise(0, k) == 0
  {
    if k > 0 {
      RaiseOfZero(k - 1);
    }
  }

  /**
   * A result stands for the number in the text if and only if the sign is not lost with "-0" and the sum is
   * not below the 32-bit range, which the method does not check.
   */
  lemma ResultIsExact(s: string)
    requires Plain(s) && InRange(WholeValue(s)) && Sum(s) <= INT32_MAX
    ensures Narrow(Sum(s)) == Meant(s) && InRange(Meant(s)) <==>
            Sum(s) >= INT32_MIN && !(Negative(s) && ValueOf(WholeDigits(s)) == 0 && Fraction(s) != [])
  {
    SumIsMeant(s);
    NarrowKeeps(Sum(s));
    if !InRange(Sum(s)) && Fraction(s) != [] {
      LostSignIsSmall(s);
    }
  }

  lemma LostSignIsSmall(s: string)
    requires Plain(s)
    ensures Negative(s) && ValueOf(WholeDigits(s)) == 0 ==> Sum(s) >= 0
  {
    SignOfWhole(s);
    RaiseOfZero(|Fraction(s)|);
  }

  lemma LastDigitStays(x: int, y: nat)
    requires y % 10 != 0
    ensures (10 * x + y) % 10 != 0 && (10 * x - y) % 10 != 0
  {
  }

  /** A result with digits behind the point is in lowest terms: its last digit is not zero. */
  lemma ResultIsReduced(s: string)
    requires Plain(s) && Fraction(s) != []
    ensures Sum(s) % 10 != 0
  {
    var n := |Fraction(s)|;
    LastDigitCounts(Fraction(s));
    var higher := Raise(WholeValue(s), n - 1);
    assert Raise(WholeValue(s), n) == 10 * higher;
    LastDigitStays(higher, ValueOf(Fraction(s)));
  }

  // ---------- against all the digits of the text ----------

  lemma {:induction false} ValueOfJoined(a: string, b: string)
    requires IsDigits(a) && IsDigits(b)
    ensures IsDigits(a + b) && ValueOf(a + b) == Raise(ValueOf(a), |b|) + ValueOf(b)
  {
    if b == [] {
      assert a + b == a;
    } else {
      var init := b[..|b| - 1];
      ValueOfJoined(a, init);
      assert (a + b)[..|a + b| - 1] == a + init;
    }
  }

  lemma {:induction false} ZerosCountNothing(s: string)
    requires IsDigits(s)
    ensures ValueOf(s) == 0 <==> forall i :: 0 <= i < |s| ==> s[i] == '0'
  {
    if s != [] {
      ZerosCountNothing(s[..|s| - 1]);
    }
  }

  /** Stripping zeros leaves the digits behind the point what they are, only counted in larger units. */
  lemma FractionCounts(digits: string)
    requires IsDigits(digits)
    ensures var f := WithoutZeros(digits);
            ValueOf(digits) == Raise(ValueOf(f), |digits| - |f|) && (f == [] <==> ValueOf(digits) == 0)
  {
    var f := WithoutZeros(digits);
    var zeros := digits[|f|..];
    ZerosBehind(digits, f, zeros);
    ZerosCountNothing(digits);
  }

  lemma ZerosBehind(s: string, f: string, zeros: string)
    requires IsDigits(f) && IsDigits(s) && s == f + zeros && forall i :: 0 <= i < |zeros| ==> zeros[i] == '0'
    ensures ValueOf(s) == Raise(ValueOf(f), |zeros|)
  {
    ZerosCountNothing(zeros);
    ValueOfJoined(f, zeros);
  }

  /** A text in plain form, put together from its parts; an empty fraction may come without the point. */
  ghost predicate IsText(s: string, neg: bool, whole: string, digits: string) {
    && whole != [] && IsDigits(whole) && IsDigits(digits)
    && (s == (if neg then "-" else "") + whole + "." + digits
        || (digits == [] && s == (if neg then "-" else "") + whole))
  }

  lemma PartsOfText(s: string, neg: bool, whole: string, digits: string)
    requires IsText(s, neg, whole, digits)
    ensures Negative(s) == Negative(Whole(s)) == neg && WholeDigits(s) == whole
    ensures Fraction(s) == WithoutZeros(digits) && |Fraction(s)| <= |digits|
    ensures Plain(s) <==> |WithoutZeros(digits)| <= 9
  {
    var front := (if neg then "-" else "") + whole;
    assert forall i :: 0 <= i < |front| ==> front[i] != '.';
    PointBehind(front, s[|front|..]);
    assert s == front + s[|front|..];
    if s != front {
      assert s[|front|..] == "." + digits && s[|front| + 1..] == digits;
    }
    assert Point(s) == |front| && Whole(s) == front;
    assert front[0] == if neg then '-' else whole[0];
    assert neg ==> front[1..] == whole;
  }

  lemma RaiseSum(w: int, x: int, v: int, j: nat, k: nat, m: nat, n: int, all: int)
    requires x == Raise(w, j) && m == j + k && n == x + v && all == Raise(w, m) + Raise(v, k)
    ensures Raise(n, k) == all
  {
    RaiseTwice(w, j, k);
    RaiseAdds(x, v, k);
  }

  /** n is what whole and f mean, in units of the last digit of f; digits is f with k zeros. */
  lemma ZerosScale(whole: string, digits: string, f: string, k: nat, n: int)
    requires IsDigits(whole) && IsDigits(digits) && IsDigits(f) && |digits| == |f| + k
    requires ValueOf(digits) == Raise(ValueOf(f), k) && n == Raise(ValueOf(whole), |f|) + ValueOf(f)
    ensures IsDigits(whole + digits) && Raise(n, k) == ValueOf(whole + digits)
  {
    ValueOfJoined(whole, digits);
    RaiseSum(ValueOf(whole), n - ValueOf(f), ValueOf(f), |f|, k, |digits|, n, ValueOf(whole + digits));
  }

  lemma SignOutside(neg: bool, n: int, k: nat)
    ensures Raise(Signed(neg, n), k) == Signed(neg, Raise(n, k))
  {
    RaiseNegates(n, k);
  }

  /** The number that all digits make up, with its sign, as a whole number of units of the last one. */
  ghost function AllDigits(neg: bool, whole: string, digits: string): int
    requires IsDigits(whole + digits)
  {
    Signed(neg, ValueOf(whole + digits))
  }

  ghost predicate AllZeros(s: string) {
    forall i :: 0 <= i < |s| ==> s[i] == '0'
  }

  lemma MeantCountsAllDigits(s: string, neg: bool, whole: string, digits: string, k: nat)
    requires IsText(s, neg, whole, digits) && Plain(s) && |digits| == |Fraction(s)| + k
    ensures IsDigits(whole + digits)
    ensures Raise(Meant(s), k) == AllDigits(neg, whole, digits)
  {
    PartsOfText(s, neg, whole, digits);
    StrippedScale(s, digits, k);
    ZerosScale(whole, digits, Fraction(s), k, MeantSize(s));
    SignOutside(neg, MeantSize(s), k);
  }

  lemma StrippedScale(s: string, digits: string, k: nat)
    requires Plain(s) && IsDigits(digits) && Fraction(s) == WithoutZeros(digits) && |digits| == |Fraction(s)| + k
    ensures ValueOf(digits) == Raise(ValueOf(Fraction(s)), k)
  {
    FractionCounts(digits);
  }

  lemma SignIsLost(s: string, neg: bool, whole: string, digits: string)
    requires IsText(s, neg, whole, digits) && Plain(s)
    ensures Negative(s) && ValueOf(WholeDigits(s)) == 0 && Fraction(s) != [] <==>
            neg && AllZeros(whole) && !AllZeros(digits)
  {
    PartsOfText(s, neg, whole, digits);
    ZerosCountNothing(whole);
    assert WithoutZeros(digits) == [] <==> AllZeros(digits);
  }

  /**
   * The result stands for the number that all the digits make up, with as many decimal places as there are
   * digits behind the point, exactly unless the text is "-0" with a fraction.
   */
  lemma SumCountsAllDigits(s: string, neg: bool, whole: string, digits: string, k: nat)
    requires IsText(s, neg, whole, digits) && Plain(s) && |digits| == |Fraction(s)| + k
    ensures IsDigits(whole + digits)
    ensures Raise(Sum(s), k) == AllDigits(neg, whole, digits) <==> !(neg && AllZeros(whole) && !AllZeros(digits))
  {
    MeantCountsAllDigits(s, neg, whole, digits, k);
    SignIsLost(s, neg, whole, digits);
    SumAgainst(s, k);
  }

  lemma SumAgainst(s: string, k: nat)
    requires Plain(s)
    ensures Raise(Sum(s), k) == Raise(Meant(s), k) <==>
            !(Negative(s) && ValueOf(WholeDigits(s)) == 0 && Fraction(s) != [])
  {
    SumIsMeant(s);
    RaiseIsInjective(Sum(s), Meant(s), k);
  }

  lemma {:induction false} RaiseIsInjective(x: int, y: int, k: nat)
    ensures Raise(x, k) == Raise(y, k) <==> x == y
  {
    if k > 0 {
      RaiseIsInjective(x, y, k - 1);
    }
  }

  /** "-0.5" is read as 5 * 10^-1. */
  lemma SignLost()
    ensures Plain("-0.5") && Meant("-0.5") == -5 && Sum("-0.5") == 5
  {
    var s := "-0.5";
    assert s[1..] == "0.5" && s[2..] == ".5" && s[1..][1..] == ".5";
    assert Point(".5") == 0 && Point("0.5") == 1 && Point(s) == 2;
    assert Whole(s) == "-0" && WholeDigits(s) == "0" && s[3..] == "5";
    assert "0"[..0] == "" && "5"[..0] == "";
    assert ValueOf("0") == 0 && ValueOf("5") == 5;
    assert Fraction(s) == "5";
  }

  lemma {:induction false} ZerosRaise(s: string, zeros: nat)
    requires IsDigits(s)
    ensures var t := s + seq(zeros, _ => '0'); IsDigits(t) && ValueOf(t) == Raise(ValueOf(s), zeros)
  {
    var t := s + seq(zeros, _ => '0');
    if zeros == 0 {
      assert t == s;
    } else {
      ZerosRaise(s, zeros - 1);
      assert t[..|t| - 1] == s + seq(zeros - 1, _ => '0');
    }
  }

  lemma LargeWhole()
    ensures IsDigits("300000000") && ValueOf("300000000") == 300000000
  {
    assert IsDigits("3") && "3"[..0] == "";
    ZerosRaise("3", 8);
    assert "300000000" == "3" + seq(8, _ => '0');
    RaiseIsProduct(3, 8);
    assert Pow10(4) == 10000 && Pow10(8) == 100000000;
  }

  lemma TextParts(whole: string, s: string)
    requires '.' !in whole && s == whole + ".5"
    ensures Point(s) == |whole| && Whole(s) == whole && s[Point(s) + 1..] == "5" && Fraction(s) == "5"
  {
    assert Point(".5") == 0;
    PointBehind(whole, ".5");
  }

  lemma InTenths(s: string)
    requires Plain(s) && Negative(Whole(s)) && Fraction(s) == "5" && ValueOf(WholeDigits(s)) > 0
    ensures Sum(s) == Meant(s) == -10 * ValueOf(WholeDigits(s)) - 5
  {
    var n: int := ValueOf(WholeDigits(s));
    SumIsMeant(s);
    assert "5"[..0] == "";
    assert ValueOf("5") == 5;
    assert Raise(-n, 1) == 10 * Raise(-n, 0);
  }

  lemma LargeTenths(s: string)
    requires s == "-300000000.5"
    ensures Plain(s) && Negative(Whole(s)) && Fraction(s) == "5" && ValueOf(WholeDigits(s)) == 300000000
  {
    TextParts("-300000000", s);
    LargeWhole();
    assert WholeDigits(s) == "300000000";
  }

  /** "-300000000.5" is read as -3000000005 tenths narrowed to 32 bits, which is 1294967291. */
  lemma SumBelowRange(s: string)
    requires s == "-300000000.5"
    ensures Plain(s) && InRange(WholeValue(s))
    ensures Sum(s) == Meant(s) == -3000000005 && Narrow(Sum(s)) == 1294967291
  {
    LargeTenths(s);
    InTenths(s);
  }

  lemma {:induction false} PointBehind(s: string, t: string)
    requires '.' !in s
    ensures Point(s + t) == |s| + Point(t)
  {
    if s == [] {
      assert s + t == t;
    } else {
      PointBehind(s[1..], t);
      assert (s + t)[1..] == s[1..] + t && (s + t)[0] == s[0] && s[0] in s;
    }
  }
}
