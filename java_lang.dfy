/**
 * The few pieces of java.lang the Java classes of the image loader lean on:
 * the exceptions they throw, `int` arithmetic with its 32-bit wrap-around,
 * and the ASCII part of String's case conversion and comparison.
 */
module JavaLang {
  import opened DecodeImage

  /** An exception a Java method ends with, with the message it carries. */
  datatype Exception =
    | IllegalArgument(msg: string)
    | NullPointer(msg: string)
    | ArrayIndexOutOfBounds
    | NegativeArraySize
    | Arithmetic

  /** A NullPointerException raised by dereferencing null carries no message of the program's own. */
  const NO_MESSAGE: string := ""

  const INT_MIN: int := -0x8000_0000
  const INT_MAX: int := 0x7FFF_FFFF

  /** A value a Java `int` can hold. */
  predicate IsInt(x: int)
  {
    INT_MIN <= x <= INT_MAX
  }

  /** Java `int` arithmetic: the value taken modulo 2^32 into [-2^31, 2^31). */
  function Int32(x: int): (r: int)
    ensures INT_MIN <= r <= INT_MAX
    ensures (r - x) % 0x1_0000_0000 == 0
    ensures INT_MIN <= x <= INT_MAX ==> r == x
  {
    var u := x % 0x1_0000_0000;
    if u <= INT_MAX then u else u - 0x1_0000_0000
  }

  /** Integer.toString, as string concatenation writes an `int`. */
  function DecimalString(n: int): string
  {
    if n < 0 then "-" + Digits(-n) else Digits(n)
  }

  /** The decimal digits of `n`, most significant first, without leading zeros. */
  function Digits(n: nat): string
  {
    if n < 10 then [DigitChar(n)] else Digits(n / 10) + [DigitChar(n % 10)]
  }

  function DigitChar(d: nat): char
    requires d < 10
  {
    ('0' as int + d) as char
  }

  /** Character.toUpperCase on ASCII: 'a'..'z' become 'A'..'Z', every other character stays. */
  function UpperChar(c: char): char
  {
    if 'a' <= c <= 'z' then (c as int - 32) as char else c
  }

  /** String.toUpperCase, character by character. */
  function ToUpperCase(s: string): (u: string)
    ensures |u| == |s| && forall i :: 0 <= i < |s| ==> u[i] == UpperChar(s[i])
  {
    seq(|s|, i requires 0 <= i < |s| => UpperChar(s[i]))
  }

  /** String.endsWith. */
  predicate EndsWith(s: string, suffix: string)
  {
    |suffix| <= |s| && s[|s| - |suffix|..] == suffix
  }

  /** String.equalsIgnoreCase: same length, and every pair of characters the same once upper-cased. */
  predicate EqualsIgnoreCase(a: string, b: string)
  {
    |a| == |b| && forall i :: 0 <= i < |a| ==> UpperChar(a[i]) == UpperChar(b[i])
  }

  /** Upper-casing distributes over concatenation. */
  lemma UpperConcat(a: string, b: string)
    ensures ToUpperCase(a + b) == ToUpperCase(a) + ToUpperCase(b)
  {
    var l, r := ToUpperCase(a + b), ToUpperCase(a) + ToUpperCase(b);
    assert |l| == |r|;
    forall i | 0 <= i < |l|
      ensures l[i] == r[i]
    {
      if i < |a| {
        assert (a + b)[i] == a[i];
      } else {
        assert (a + b)[i] == b[i - |a|];
      }
    }
  }

  /** A string ends with any string appended to it. */
  lemma EndsWithAppended(stem: string, suffix: string)
    ensures EndsWith(stem + suffix, suffix)
  {
    assert (stem + suffix)[|stem|..] == suffix;
  }

  /** Two strings are equal ignoring case exactly when their upper-cased forms are equal. */
  lemma IgnoreCaseIsUpperEquality(a: string, b: string)
    ensures EqualsIgnoreCase(a, b) <==> ToUpperCase(a) == ToUpperCase(b)
  {
    if ToUpperCase(a) == ToUpperCase(b) {
      assert |a| == |ToUpperCase(a)|;
      forall i | 0 <= i < |a|
        ensures UpperChar(a[i]) == UpperChar(b[i])
      {
        assert ToUpperCase(a)[i] == ToUpperCase(b)[i];
      }
    }
  }
}
