/** The few pieces of java.lang whose exact behaviour the core depends on:
    32-bit `int` addition, `Long.toString`, `String.toLowerCase` and
    `String.replace` with a one-character target. */
module JavaLang {

  const MinInt: int := -0x8000_0000
  const MaxInt: int := 0x7fff_ffff
  const IntRange: int := 0x1_0000_0000

  /** Java's `int`. */
  type Int = x: int | MinInt <= x <= MaxInt

  /** `a + b` on Java `int`s: two's-complement wrap-around. */
  function AddInt(a: Int, b: Int): (r: Int)
    ensures MinInt <= a + b <= MaxInt ==> r == a + b
    ensures a + b > MaxInt ==> r == a + b - IntRange && r < 0
    ensures a + b < MinInt ==> r == a + b + IntRange && r >= 0
  {
    (a + b - MinInt) % IntRange + MinInt
  }

  // ---------------------------------------------------------------- Long.toString

  function DigitChar(d: int): (c: char)
    requires 0 <= d < 10
    ensures '0' <= c <= '9'
  {
    (('0' as int) + d) as char
  }

  /** Decimal digits of a non-negative number, most significant first. */
  function NatToString(n: nat): (s: string)
    decreases n
  {
    if n < 10 then [DigitChar(n)] else NatToString(n / 10) + [DigitChar(n % 10)]
  }

  /** `Long.toString(n)`: an optional minus sign followed by the decimal digits. */
  function LongToString(n: int): string {
    if n < 0 then "-" + NatToString(-n) else NatToString(n)
  }

  lemma {:induction false} NatToStringShape(n: nat)
    ensures |NatToString(n)| >= 1
    ensures n < 10 <==> |NatToString(n)| == 1
    ensures forall i :: 0 <= i < |NatToString(n)| ==> '0' <= NatToString(n)[i] <= '9'
    decreases n
  {
    if n >= 10 {
      NatToStringShape(n / 10);
    }
  }

  lemma {:induction false} NatToStringInjective(a: nat, b: nat)
    requires NatToString(a) == NatToString(b)
    ensures a == b
    decreases a
  {
    NatToStringShape(a);
    NatToStringShape(b);
    var s := NatToString(a);
    if a >= 10 && b >= 10 {
      assert DigitChar(a % 10) == s[|s| - 1] == DigitChar(b % 10);
      assert NatToString(a / 10) == s[..|s| - 1] == NatToString(b / 10);
      NatToStringInjective(a / 10, b / 10);
    }
  }

  /** Two ids render to the same string only if they are the same id, so
      comparing rendered ids compares the ids. */
  lemma LongToStringInjective(a: int, b: int)
    ensures LongToString(a) == LongToString(b) <==> a == b
  {
    if a < 0 && b < 0 {
      if LongToString(a) == LongToString(b) {
        assert NatToString(-a) == LongToString(a)[1..] == NatToString(-b);
        NatToStringInjective(-a, -b);
      }
    } else if a >= 0 && b >= 0 {
      if LongToString(a) == LongToString(b) {
        NatToStringInjective(a, b);
      }
    } else {
      var n := if a < 0 then b else a;
      NatToStringShape(n);
      assert LongToString(n)[0] != '-';
      assert LongToString(a)[0] != LongToString(b)[0];
    }
  }

  // ---------------------------------------------------------- String.toLowerCase

  function LowerChar(c: char): char {
    if 'A' <= c <= 'Z' then (c as int - 'A' as int + 'a' as int) as char else c
  }

  /** `String.toLowerCase()`, restricted to the ASCII letters. */
  function ToLowerCase(s: string): (r: string)
    ensures |r| == |s|
    ensures forall i :: 0 <= i < |s| ==> r[i] == LowerChar(s[i])
  {
    if s == [] then [] else [LowerChar(s[0])] + ToLowerCase(s[1..])
  }

  lemma ToLowerCaseIdempotent(s: string)
    ensures ToLowerCase(ToLowerCase(s)) == ToLowerCase(s)
  {
    var once := ToLowerCase(s);
    var twice := ToLowerCase(once);
    assert forall i :: 0 <= i < |s| ==> twice[i] == once[i];
  }

  // ------------------------------------------------------------- String.replace

  /** `s.replace(String.valueOf(target), replacement)`: every occurrence of the
      one-character target, scanning left to right, is replaced. */
  function ReplaceChar(s: string, target: char, replacement: string): (r: string)
    ensures target !in s ==> r == s
    ensures |r| >= |s| || |replacement| < 1
  {
    if s == [] then []
    else (if s[0] == target then replacement else [s[0]]) + ReplaceChar(s[1..], target, replacement)
  }

  lemma {:induction false} ReplaceCharAppend(a: string, b: string, target: char, replacement: string)
    ensures ReplaceChar(a + b, target, replacement)
         == ReplaceChar(a, target, replacement) + ReplaceChar(b, target, replacement)
    decreases |a|
  {
    if a != [] {
      assert (a + b)[1..] == a[1..] + b;
      ReplaceCharAppend(a[1..], b, target, replacement);
    } else {
      assert a + b == b;
    }
  }
}
