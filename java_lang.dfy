/**
 * The pieces of the Java runtime that the alignment core relies on:
 * nullable references, 32-bit `int` arithmetic with wrap-around,
 * `Integer.toString`, and the exceptions the core can throw.
 */
module JavaLang {

  /** A Java reference that may be `null`. */
  datatype Nullable<T> = Null | NonNull(value: T)

  /** The exceptions the modelled code throws on bad input. */
  datatype Exception =
    | IndexOutOfBounds    // List.get on a missing index
    | NoSuchElement       // Iterator.next on an exhausted iterator
    | NullPointer         // a method called on a null reference
    | Arithmetic          // integer division by zero

  /** A value, or the exception a Java method throws instead of returning. */
  datatype Result<T> = Success(value: T) | Failure(error: Exception)

  const TWO_TO_32: int := 0x1_0000_0000
  const INT_MIN: int := -0x8000_0000
  const INT_MAX: int := 0x7fff_ffff

  /** Java's `int`. */
  type int32 = x: int | -0x8000_0000 <= x < 0x8000_0000

  /** The Java `int` that the mathematical integer x becomes (two's complement wrap-around). */
  function Wrap32(x: int): (r: int32)
    ensures (x - r) % TWO_TO_32 == 0
    ensures INT_MIN <= x <= INT_MAX ==> r == x
  {
    var m := x % TWO_TO_32;
    if m <= INT_MAX then m else m - TWO_TO_32
  }

  /** Java's `a + b` on `int`. */
  function Add32(a: int32, b: int32): int32 {
    Wrap32(a + b)
  }

  /** Java's `a * b` on `int`. */
  function Mul32(a: int32, b: int32): int32 {
    Wrap32(a * b)
  }

  /** Two Java ints that agree modulo 2^32 are the same int. */
  lemma Wrap32Unique(r: int32, s: int32)
    requires (r - s) % TWO_TO_32 == 0
    ensures r == s
  {
    var k := (r - s) / TWO_TO_32;
    assert r - s == TWO_TO_32 * k;
  }

  /** Wrapping depends only on the residue modulo 2^32. */
  lemma Wrap32Congruent(x: int, y: int)
    requires (x - y) % TWO_TO_32 == 0
    ensures Wrap32(x) == Wrap32(y)
  {
    var rx, ry := Wrap32(x), Wrap32(y);
    var a, b, c := (x - rx) / TWO_TO_32, (y - ry) / TWO_TO_32, (x - y) / TWO_TO_32;
    assert x - rx == TWO_TO_32 * a;
    assert y - ry == TWO_TO_32 * b;
    assert x - y == TWO_TO_32 * c;
    assert rx - ry == TWO_TO_32 * (c - a + b);
    Wrap32Unique(rx, ry);
  }

  /** Adding in `int` to a wrapped value wraps the exact sum. */
  lemma Wrap32AddStep(x: int, g: int32)
    ensures Add32(Wrap32(x), g) == Wrap32(x + g)
  {
    var r := Wrap32(x);
    var k := (x - r) / TWO_TO_32;
    assert x - r == TWO_TO_32 * k;
    assert (r + g) - (x + g) == TWO_TO_32 * (-k);
    Wrap32Congruent(r + g, x + g);
  }

  /** Decimal digits of a natural number, most significant first. */
  function Digits(n: nat): (s: string)
    ensures |s| > 0
    ensures forall k :: 0 <= k < |s| ==> '0' <= s[k] <= '9'
    decreases n
  {
    if n < 10 then [DigitChar(n)] else Digits(n / 10) + [DigitChar(n % 10)]
  }

  function DigitChar(d: nat): (c: char)
    requires d < 10
    ensures '0' <= c <= '9'
  {
    ['0', '1', '2', '3', '4', '5', '6', '7', '8', '9'][d]
  }

  function DigitValue(c: char): nat
    requires '0' <= c <= '9'
  {
    c as int - '0' as int
  }

  /** `Integer.toString`: an optional minus sign followed by decimal digits. */
  function IntToString(n: int): (s: string)
    ensures |s| > 0
    ensures forall k :: 0 <= k < |s| ==> s[k] == '-' || '0' <= s[k] <= '9'
  {
    if n < 0 then "-" + Digits(-n) else Digits(n)
  }

  /** The value of a string of decimal digits. */
  function ParseDigits(s: string): nat
    requires |s| > 0
    requires forall k :: 0 <= k < |s| ==> '0' <= s[k] <= '9'
    decreases |s|
  {
    if |s| == 1 then DigitValue(s[0])
    else 10 * ParseDigits(s[..|s| - 1]) + DigitValue(s[|s| - 1])
  }

  /** The reading of a decimal string that `IntToString` produced. */
  function ParseInt(s: string): (n: int)
    requires |s| > 0
    requires forall k :: 0 <= k < |s| ==> s[k] == '-' || '0' <= s[k] <= '9'
    requires s[0] == '-' ==> |s| > 1 && forall k :: 1 <= k < |s| ==> '0' <= s[k] <= '9'
    requires s[0] != '-' ==> forall k :: 0 <= k < |s| ==> '0' <= s[k] <= '9'
  {
    if s[0] == '-' then 0 - ParseDigits(s[1..]) else ParseDigits(s)
  }

  lemma {:induction false} ParseDigitsOfDigits(n: nat)
    ensures ParseDigits(Digits(n)) == n
    decreases n
  {
    if n >= 10 {
      var s := Digits(n);
      assert s[..|s| - 1] == Digits(n / 10);
      ParseDigitsOfDigits(n / 10);
      assert DigitValue(DigitChar(n % 10)) == n % 10;
    } else {
      assert DigitValue(DigitChar(n)) == n;
    }
  }

  /** Reading back `Integer.toString` gives the number printed. */
  lemma IntToStringRoundTrip(n: int)
    ensures ParseInt(IntToString(n)) == n
  {
    if n < 0 {
      assert IntToString(n)[1..] == Digits(-n);
      ParseDigitsOfDigits(-n);
    } else {
      assert IntToString(n)[0] != '-';
      ParseDigitsOfDigits(n);
    }
  }

  /** Distinct numbers print as distinct strings. */
  lemma IntToStringInjective(m: int, n: int)
    requires IntToString(m) == IntToString(n)
    ensures m == n
  {
    IntToStringRoundTrip(m);
    IntToStringRoundTrip(n);
  }
}
