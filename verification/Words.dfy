/** Machine words, alignment and byte order, written on unbounded integers. */
module Words {

  type byte = b: int | 0 <= b < 256

  datatype Option<T> = None | Some(value: T)

  /** Memory addressed by any integer, so that a wrongly truncated address still names something. */
  type Memory = int -> byte

  /** Conversion to a 32-bit `int`. */
  function AsInt32(n: int): int {
    var m := n % 0x1_0000_0000;
    if m < 0x8000_0000 then m else m - 0x1_0000_0000
  }

  /** Conversion to a 64-bit `long long`. */
  function AsInt64(n: int): int {
    var m := n % 0x1_0000_0000_0000_0000;
    if m < 0x8000_0000_0000_0000 then m else m - 0x1_0000_0000_0000_0000
  }

  /** `n & ~(unit - 1)` for a power of two `unit`, on two's complement numbers of any sign. */
  function Align(n: int, unit: int): int
    requires unit > 0
  {
    n - n % unit
  }

  /** The least multiple of `unit` that is not below `n`. */
  function RoundUp(n: int, unit: int): int
    requires unit > 0
  {
    Align(n + unit - 1, unit)
  }

  function Min(a: int, b: int): int { if a < b then a else b }

  function Pow16(e: nat): nat { if e == 0 then 1 else 16 * Pow16(e - 1) }

  function Pow256(e: nat): nat { if e == 0 then 1 else 256 * Pow256(e - 1) }

  lemma {:induction false} PowPositive(e: nat)
    ensures Pow16(e) > 0 && Pow256(e) > 0
  {
    if e > 0 { PowPositive(e - 1); }
  }

  lemma {:induction false} Pow256IsPow16(e: nat)
    ensures Pow256(e) == Pow16(2 * e)
  {
    if e > 0 {
      Pow256IsPow16(e - 1);
      assert Pow16(2 * e) == 16 * Pow16(2 * e - 1) == 16 * (16 * Pow16(2 * e - 2));
    }
  }

  lemma {:induction false} Pow16Grows(a: nat, b: nat)
    requires a <= b
    ensures Pow16(a) <= Pow16(b)
    decreases b
  {
    if a < b {
      Pow16Grows(a, b - 1);
      PowPositive(b - 1);
    }
  }

  lemma Pow16Values()
    ensures Pow16(13) == 0x10_0000_0000_0000 && Pow16(14) == 0x100_0000_0000_0000
    ensures Pow16(15) == 0x1000_0000_0000_0000 && Pow16(16) == 0x1_0000_0000_0000_0000
  {
    assert Pow16(4) == 0x1_0000;
    assert Pow16(8) == 0x1_0000_0000;
    assert Pow16(12) == 0x1_0000_0000_0000;
  }

  lemma ProductGap(k: int, d: int)
    requires d > 0
    ensures k >= 1 ==> k * d >= d
    ensures k <= -1 ==> k * d <= -d
  {
  }

  /** A number is its quotient and remainder, and no other pair. */
  lemma DivModUnique(n: int, d: int, q: int, r: int)
    requires d > 0 && 0 <= r < d && n == q * d + r
    ensures n / d == q && n % d == r
  {
    var e := n / d - q;
    assert n == d * (n / d) + n % d;
    assert e * d == r - n % d;
    ProductGap(e, d);
  }

  lemma QuotientRemainder(n: nat, d: nat)
    requires d > 0
    ensures n == n / d * d + n % d
  {
  }

  lemma Scaled(q: nat, n: nat, d: nat)
    requires d > 0
    ensures q * d < n * d <==> q < n
  {
    ProductGap(q - n, d);
    assert (q - n) * d == q * d - n * d;
  }

  /** A quotient is below `n` exactly when the number is below `n` times the divisor. */
  lemma QuotientBelow(x: nat, d: nat, n: nat)
    requires d > 0
    ensures x / d < n <==> x < n * d
  {
    var q := x / d;
    assert x == q * d + x % d;
    Scaled(n, q + 1, d);
    Scaled(q, n, d);
    assert (q + 1) * d == q * d + d;
  }

  lemma Distribute(m: int, a: int, b: int)
    ensures m * (a + b) == m * a + m * b
  {
  }

  lemma Commute(a: int, b: int)
    ensures a * b == b * a
  {
  }

  lemma TwoRemainders(m: nat, n: nat, r: nat, s: nat)
    requires r < n && s < m
    ensures 0 <= m * r + s < m * n
  {
    Distribute(m, r, 1);
    Commute(m, r + 1);
    Commute(m, n);
    Scaled(n, r + 1, m);
  }

  /** Dividing in two steps. */
  lemma DivDiv(a: nat, m: nat, n: nat)
    requires m > 0 && n > 0
    ensures m * n > 0 && a / (m * n) == a / m / n
  {
    var x, s := a / m, a % m;
    var q, r := x / n, x % n;
    TwoRemainders(m, n, r, s);
    assert a == m * x + s && x == q * n + r;
    Distribute(m, q * n, r);
    Commute(m, q * n);
    Reassociate(q, n, m);
    Commute(n, m);
    DivModUnique(a, m * n, q, m * r + s);
  }

  lemma AlignBounds(n: int, unit: int)
    requires unit > 0
    ensures Align(n, unit) <= n < Align(n, unit) + unit
    ensures Align(n, unit) % unit == 0
  {
    assert Align(n, unit) == (n / unit) * unit;
    DivModUnique(Align(n, unit), unit, n / unit, 0);
  }

  /** Two multiples of `unit` less than `unit` apart are equal. */
  lemma MultiplesApart(a: int, b: int, unit: int)
    requires unit > 0 && a % unit == 0 && b % unit == 0
    requires a - unit < b < a + unit
    ensures a == b
  {
    var k := a / unit - b / unit;
    assert a == unit * (a / unit) && b == unit * (b / unit);
    assert a - b == k * unit;
    ProductGap(k, unit);
  }

  /** `RoundUp` is at least its argument, a multiple, and below every other such multiple. */
  lemma RoundUpBounds(n: int, unit: int)
    requires unit > 0
    ensures n <= RoundUp(n, unit) < n + unit
    ensures RoundUp(n, unit) % unit == 0
  {
    AlignBounds(n + unit - 1, unit);
  }

  /** Little-endian value of a byte string. */
  function LittleEndian(bs: seq<byte>): nat {
    if bs == [] then 0 else bs[0] + 256 * LittleEndian(bs[1..])
  }

  /** The `k` low bytes of `n`, low byte first. */
  function Bytes(n: nat, k: nat): seq<byte> {
    if k == 0 then [] else [n % 256] + Bytes(n / 256, k - 1)
  }

  lemma {:induction false} BytesOfLittleEndian(bs: seq<byte>)
    ensures LittleEndian(bs) < Pow256(|bs|)
    ensures Bytes(LittleEndian(bs), |bs|) == bs
  {
    if bs != [] {
      BytesOfLittleEndian(bs[1..]);
      LowByte(bs[0], LittleEndian(bs[1..]));
      assert bs == [bs[0]] + bs[1..];
    }
  }

  lemma LowByte(low: byte, rest: nat)
    ensures (low + 256 * rest) % 256 == low && (low + 256 * rest) / 256 == rest
  {
  }

  lemma {:induction false} LittleEndianOfBytes(n: nat, k: nat)
    ensures |Bytes(n, k)| == k && Pow256(k) > 0
    ensures LittleEndian(Bytes(n, k)) == n % Pow256(k)
  {
    PowPositive(k);
    if k > 0 {
      LittleEndianOfBytes(n / 256, k - 1);
      assert Bytes(n, k)[1..] == Bytes(n / 256, k - 1);
      LowByteOfRemainder(n, Pow256(k - 1));
    }
  }

  lemma LowByteOfRemainder(n: nat, p: nat)
    requires p > 0
    ensures n % 256 + 256 * (n / 256 % p) == n % (256 * p)
  {
    var q, r := n / 256 / p, n / 256 % p;
    assert n / 256 == q * p + r;
    assert n == q * (256 * p) + (256 * r + n % 256);
    DivModUnique(n, 256 * p, q, 256 * r + n % 256);
  }

  /** Byte `i` has weight 256^i. */
  lemma {:induction false} LittleEndianByte(bs: seq<byte>, i: nat)
    requires i < |bs|
    ensures Pow256(i) > 0 && LittleEndian(bs) / Pow256(i) % 256 == bs[i]
  {
    PowPositive(i);
    LowByte(bs[0], LittleEndian(bs[1..]));
    if i > 0 {
      LittleEndianByte(bs[1..], i - 1);
      DivDiv(LittleEndian(bs), 256, Pow256(i - 1));
    }
  }

  /** Splitting a byte string splits its value at the matching power. */
  lemma {:induction false} LittleEndianSplit(low: seq<byte>, high: seq<byte>)
    ensures LittleEndian(low + high) == LittleEndian(low) + Pow256(|low|) * LittleEndian(high)
  {
    if low == [] {
      assert low + high == high;
    } else {
      LittleEndianSplit(low[1..], high);
      assert (low + high)[1..] == low[1..] + high;
      Reassociate(256, Pow256(|low| - 1), LittleEndian(high));
    }
  }

  lemma Reassociate(a: int, b: int, c: int)
    ensures a * b * c == a * (b * c)
  {
  }

  /** The text of a NUL-terminated buffer. */
  function CString(buf: seq<char>): string {
    if buf == [] || buf[0] == '\0' then "" else [buf[0]] + CString(buf[1..])
  }

  /** A text without NUL characters, followed by one. */
  lemma {:induction false} CStringOf(buf: seq<char>, text: string)
    requires |text| < |buf| && buf[..|text|] == text && buf[|text|] == '\0' && '\0' !in text
    ensures CString(buf) == text
    decreases |text|
  {
    if text != "" {
      assert buf[0] == text[0];
      assert buf[1..][..|text| - 1] == text[1..];
      CStringOf(buf[1..], text[1..]);
    }
  }
}
