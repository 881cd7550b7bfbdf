/** Upper-case hexadecimal numerals as `printf` writes them, and their value. */
module Hex {
  import opened Words

  function Digit(d: nat): char
    requires d < 16
  {
    if d < 10 then '0' + d as char else 'A' + (d - 10) as char
  }

  predicate IsDigit(c: char) {
    '0' <= c <= '9' || 'A' <= c <= 'F' || 'a' <= c <= 'f'
  }

  function DigitValue(c: char): (v: nat)
    ensures v < 16
  {
    if '0' <= c <= '9' then c as int - '0' as int
    else if 'A' <= c <= 'F' then c as int - 'A' as int + 10
    else if 'a' <= c <= 'f' then c as int - 'a' as int + 10
    else 0
  }

  predicate AllDigits(s: string) { forall i :: 0 <= i < |s| ==> IsDigit(s[i]) }

  predicate AllUpper(s: string) { forall i :: 0 <= i < |s| ==> '0' <= s[i] <= '9' || 'A' <= s[i] <= 'F' }

  /** `%0<width>X`: at least `width` digits, more when the number needs them. */
  function Print(n: nat, width: nat): string
    decreases n, width
  {
    if n < 16 && width <= 1 then [Digit(n)]
    else Print(n / 16, if width == 0 then 0 else width - 1) + [Digit(n % 16)]
  }

  /** The number a digit string denotes, most significant digit first. */
  function ValueOf(s: string): nat {
    if s == "" then 0 else 16 * ValueOf(s[..|s| - 1]) + DigitValue(s[|s| - 1])
  }

  /** Appending a digit shifts the value by one place. */
  lemma AppendDigit(s: string, c: char)
    ensures ValueOf(s + [c]) == 16 * ValueOf(s) + DigitValue(c)
  {
    assert (s + [c])[..|s|] == s;
  }

  lemma DigitIsDigit(d: nat)
    requires d < 16
    ensures IsDigit(Digit(d)) && DigitValue(Digit(d)) == d
  {
  }

  lemma {:induction false} PrintIsUpper(n: nat, width: nat)
    ensures AllUpper(Print(n, width))
    decreases n, width
  {
    if !(n < 16 && width <= 1) {
      PrintIsUpper(n / 16, if width == 0 then 0 else width - 1);
    }
  }

  lemma UpperIsDigit(s: string)
    requires AllUpper(s)
    ensures AllDigits(s)
  {
  }

  lemma {:induction false} PrintedValue(n: nat, width: nat)
    ensures ValueOf(Print(n, width)) == n
    decreases n, width
  {
    DigitIsDigit(n % 16);
    if n < 16 && width <= 1 {
      AppendDigit("", Digit(n));
      assert "" + [Digit(n)] == [Digit(n)];
    } else {
      var w := if width == 0 then 0 else width - 1;
      PrintedValue(n / 16, w);
      AppendDigit(Print(n / 16, w), Digit(n % 16));
    }
  }

  /** A printed number has upper-case digits only, and reading it gives the number back. */
  lemma PrintRoundTrip(n: nat, width: nat)
    ensures AllUpper(Print(n, width))
    ensures AllDigits(Print(n, width)) && ValueOf(Print(n, width)) == n
  {
    PrintIsUpper(n, width);
    UpperIsDigit(Print(n, width));
    PrintedValue(n, width);
  }

  /** The numeral is positional, with the most significant digit first. */
  lemma {:induction false} PrintDigit(n: nat, width: nat, j: nat)
    requires j < |Print(n, width)|
    ensures Pow16(j) > 0
    ensures var text := Print(n, width); text[|text| - 1 - j] == "0123456789ABCDEF"[n / Pow16(j) % 16]
    decreases n, width
  {
    PowPositive(j);
    DigitTable(n % 16);
    if j > 0 {
      PrintDigit(n / 16, if width == 0 then 0 else width - 1, j - 1);
      DivDiv(n, 16, Pow16(j - 1));
    }
  }

  /** The sixteen digits, and their values in either case. */
  lemma DigitTable(d: nat)
    requires d < 16
    ensures Digit(d) == "0123456789ABCDEF"[d]
    ensures DigitValue("0123456789ABCDEF"[d]) == d == DigitValue("0123456789abcdef"[d])
    ensures IsDigit("0123456789ABCDEF"[d]) && IsDigit("0123456789abcdef"[d])
  {
  }

  /** A number takes exactly `width` columns when it is below 16^width and more otherwise. */
  lemma {:induction false} PrintLength(n: nat, width: nat)
    requires width > 0
    ensures |Print(n, width)| >= width
    ensures |Print(n, width)| == width <==> n < Pow16(width)
    decreases n, width
  {
    if n < 16 && width <= 1 {
      assert Pow16(1) == 16 * Pow16(0) == 16;
    } else if width == 1 {
      PrintNonempty(n / 16, 0);
      assert Pow16(1) == 16 * Pow16(0) == 16;
    } else {
      PrintLength(n / 16, width - 1);
      assert Pow16(width) == 16 * Pow16(width - 1);
    }
  }

  /** Asking for fewer columns makes no difference to a number that fills them. */
  lemma {:induction false} PrintWider(n: nat, a: nat, b: nat)
    requires 0 < a <= b && n >= Pow16(b - 1)
    ensures Print(n, a) == Print(n, b)
    decreases b
  {
    PowPositive(b - 1);
    if b > 1 {
      assert Pow16(b - 1) == 16 * Pow16(b - 2);
      if a == 1 { PrintNoWidth(n / 16); }
      if a > 1 { PrintWider(n / 16, a - 1, b - 1); }
      else { PrintWider(n / 16, 1, b - 1); }
    }
  }

  lemma PrintNoWidth(n: nat)
    ensures Print(n, 0) == Print(n, 1)
  {
  }

  lemma {:induction false} PrintNonempty(n: nat, width: nat)
    ensures |Print(n, width)| >= 1
    decreases n, width
  {
  }

  /** `n` has the `b` low digits of `low` below the digits of `high`. */
  ghost predicate Joined(n: nat, high: nat, low: nat, b: nat) {
    if b == 0 then n == high && low == 0
    else n % 16 == low % 16 && Joined(n / 16, high, low / 16, b - 1)
  }

  lemma {:induction false} JoinedProduct(high: nat, low: nat, b: nat)
    requires low < Pow16(b)
    ensures Joined(high * Pow16(b) + low, high, low, b)
  {
    if b > 0 {
      var m := high * Pow16(b - 1);
      assert high * Pow16(b) == 16 * m;
      JoinedProduct(high, low / 16, b - 1);
      var n := 16 * m + low;
      assert n / 16 == m + low / 16 && n % 16 == low % 16;
    }
  }

  /** Two numbers printed side by side read as one long number. */
  lemma {:induction false} PrintJoin(n: nat, high: nat, low: nat, a: nat, b: nat)
    requires b > 0 && a > 0 && Joined(n, high, low, b)
    ensures Print(n, a + b) == Print(high, a) + Print(low, b)
  {
    PrintStep(n, a + b);
    if b == 1 {
      assert Joined(n / 16, high, low / 16, 0);
    } else {
      PrintJoin(n / 16, high, low / 16, a, b - 1);
      PrintStep(low, b);
      Associative(Print(high, a), Print(low / 16, b - 1), [Digit(n % 16)]);
    }
  }

  lemma Associative(x: string, y: string, z: string)
    ensures x + y + z == x + (y + z)
  {
  }

  lemma PrintStep(n: nat, width: nat)
    requires width > 1
    ensures Print(n, width) == Print(n / 16, width - 1) + [Digit(n % 16)]
  {
  }

  lemma {:induction false} ValueBound(s: string)
    ensures ValueOf(s) < Pow16(|s|)
  {
    if s != "" { ValueBound(s[..|s| - 1]); }
  }

  function Spaces(n: nat): (s: string)
    ensures |s| == n && forall i :: 0 <= i < n ==> s[i] == ' '
  {
    seq(n, _ => ' ')
  }

  lemma DigitsHaveNoNul(s: string)
    requires AllDigits(s)
    ensures '\0' !in s
  {
    assert forall i :: 0 <= i < |s| ==> IsDigit(s[i]);
  }

  /** The longest prefix of hexadecimal digits. */
  function DigitPrefix(s: string): (r: string)
    ensures |r| <= |s| && AllDigits(r)
  {
    if s != "" && IsDigit(s[0]) then [s[0]] + DigitPrefix(s[1..]) else ""
  }

  lemma {:induction false} PrefixStops(digits: string, rest: string)
    requires AllDigits(digits) && (rest == "" || !IsDigit(rest[0]))
    ensures DigitPrefix(digits + rest) == digits
  {
    if digits == "" {
      assert "" + rest == rest;
    } else {
      PrefixStops(digits[1..], rest);
      assert (digits + rest)[1..] == digits[1..] + rest;
      assert digits == [digits[0]] + digits[1..];
    }
  }

  lemma {:induction false} PrefixGoesOn(digits: string, rest: string)
    requires AllDigits(digits) && rest != "" && IsDigit(rest[0])
    ensures |DigitPrefix(digits + rest)| > |digits|
  {
    if digits == "" {
      assert "" + rest == rest;
    } else {
      PrefixGoesOn(digits[1..], rest);
      assert (digits + rest)[1..] == digits[1..] + rest;
    }
  }
}
