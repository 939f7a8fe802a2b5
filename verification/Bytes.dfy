/** Byte strings: the little-endian 32-bit integers of the record headers, decimal
    numerals as `%d` prints them, and the byte-wise order of file names. */
module Bytes {

  type byte = b: int | 0 <= b < 256
  type Bytes = seq<byte>
  type uint32 = n: int | 0 <= n < U32

  const U32 := 0x1_0000_0000

  // ---------- sequences ----------

  lemma {:induction false} Assoc<T>(a: seq<T>, b: seq<T>, c: seq<T>)
    ensures (a + b) + c == a + (b + c)
  {
  }

  lemma {:induction false} Split<T>(a: seq<T>, n: nat)
    requires n <= |a|
    ensures a == a[..n] + a[n..]
  {
  }

  lemma {:induction false} Uncons<T>(a: seq<T>, b: seq<T>)
    requires a != []
    ensures [a[0]] + (a[1..] + b) == a + b
  {
  }

  lemma {:induction false} Neutral<T>(a: seq<T>)
    ensures a + [] == a && [] + a == a
  {
  }

  lemma {:induction false} SplitAt<T>(a: seq<T>, i: nat)
    requires i < |a|
    ensures a == a[..i] + ([a[i]] + a[i + 1..])
  {
  }

  lemma {:induction false} ThreeParts<T>(a: seq<T>, b: seq<T>, c: seq<T>)
    ensures var s := (a + b) + c; var n := |a| + |b|;
      s[..|a|] == a && s[|a|..n] == b && s[n..] == c
  {
  }

  lemma {:induction false} FourParts<T>(a: seq<T>, b: seq<T>, c: seq<T>, d: seq<T>)
    ensures var s := (a + (b + c)) + d; var n := |a| + |b|;
      s[|a|..n] == b && s[n..n + |c|] == c
  {
  }

  lemma {:induction false} Prefix<T>(a: seq<T>, n: nat, lo: nat, hi: nat)
    requires lo <= hi <= n <= |a|
    ensures a[..n][lo..hi] == a[lo..hi]
  {
  }

  lemma {:induction false} TakeAcross<T>(a: seq<T>, b: seq<T>, n: nat)
    requires n <= |b|
    ensures (a + b)[..|a| + n] == a + b[..n]
  {
  }

  lemma {:induction false} TakeWithin<T>(a: seq<T>, b: seq<T>, n: nat)
    requires n <= |a|
    ensures (a + b)[..n] == a[..n]
  {
  }

  lemma {:induction false} TakeCons<T>(a: seq<T>, n: nat)
    requires n < |a|
    ensures a[..n + 1] == [a[0]] + a[1..][..n]
  {
  }

  lemma {:induction false} Rejoin<T>(a: seq<T>, i: nat, j: nat, k: nat, n: nat)
    requires i <= j <= k <= n <= |a|
    ensures a[..n] == (a[..i] + a[i..j]) + (a[j..k] + a[k..n])
  {
  }

  lemma {:induction false} DropSnoc<T>(a: seq<T>, j: nat)
    requires j < |a|
    ensures a[j..] == a[..|a| - 1][j..] + [a[|a| - 1]]
  {
  }

  lemma {:induction false} Drop<T>(a: seq<T>, b: seq<T>)
    ensures (a + b)[|a|..] == b && (a + b)[..|a|] == a
  {
  }

  // ---------- little-endian 32-bit integers ----------

  /** The `width` low-order bytes of `n`, least significant first. */
  function LittleEndian(n: nat, width: nat): (r: Bytes)
    ensures |r| == width
    decreases width, n
  {
    if width == 0 then [] else [n % 256] + LittleEndian(n / 256, width - 1)
  }

  function FromLittleEndian(b: Bytes): (n: nat)
    ensures n < Limit(|b|)
  {
    if b == [] then 0 else b[0] as int + 256 * FromLittleEndian(b[1..])
  }

  lemma {:induction false} SmallMod(n: nat)
    requires n < U32
    ensures n % U32 == n
  {
  }

  function LE32(n: uint32): (r: Bytes)
    ensures |r| == 4
  {
    LittleEndian(n, 4)
  }

  function ReadLE32(b: Bytes): (n: uint32)
    requires |b| == 4
  {
    assert Limit(4) == U32;
    FromLittleEndian(b)
  }

  /** The four bytes of a size, least significant first. */
  lemma {:induction false} LE32Bytes(n: uint32)
    ensures LE32(n) == [n % 256, n / 256 % 256, n / 65536 % 256, n / 16777216]
  {
    var a, b, c := n / 256, n / 65536, n / 16777216;
    assert LittleEndian(c, 1) == [c % 256] + LittleEndian(c / 256, 0);
    assert LittleEndian(b, 2) == [b % 256] + LittleEndian(c, 1);
    assert LittleEndian(a, 3) == [a % 256] + LittleEndian(b, 2);
    assert LittleEndian(n, 4) == [n % 256] + LittleEndian(a, 3);
  }

  function Limit(width: nat): nat { if width == 0 then 1 else 256 * Limit(width - 1) }

  lemma {:induction false} LittleEndianInverse(n: nat, width: nat)
    requires n < Limit(width)
    ensures FromLittleEndian(LittleEndian(n, width)) == n
  {
    if width > 0 {
      LittleEndianInverse(n / 256, width - 1);
      assert LittleEndian(n, width)[1..] == LittleEndian(n / 256, width - 1);
    }
  }

  lemma {:induction false} FromLittleEndianInverse(b: Bytes)
    ensures LittleEndian(FromLittleEndian(b), |b|) == b
  {
    if b != [] {
      FromLittleEndianInverse(b[1..]);
      var rest := FromLittleEndian(b[1..]);
      assert FromLittleEndian(b) % 256 == b[0] as int && FromLittleEndian(b) / 256 == rest;
    }
  }

  lemma {:induction false} ReadLE32Inverse(n: uint32)
    ensures ReadLE32(LE32(n)) == n
  {
    assert Limit(4) == U32;
    LittleEndianInverse(n, 4);
  }

  lemma {:induction false} LE32Inverse(b: Bytes)
    requires |b| == 4
    ensures LE32(ReadLE32(b)) == b
  {
    FromLittleEndianInverse(b);
  }

  // ---------- decimal numerals ----------

  predicate IsDigit(b: byte) { 48 <= b <= 57 }

  function Decimal(n: nat): (r: Bytes)
    ensures |r| >= 1 && (|r| == 1 <==> n < 10)
    ensures forall i :: 0 <= i < |r| ==> IsDigit(r[i])
  {
    if n < 10 then [48 + n] else Decimal(n / 10) + [48 + n % 10]
  }

  /** What a string of digits stands for. */
  function NumericValue(d: Bytes): int {
    if d == [] then 0 else 10 * NumericValue(d[..|d| - 1]) + (d[|d| - 1] as int - 48)
  }

  /** `d` writes `n` in digits without a leading zero. */
  predicate IsNumeral(d: Bytes, n: nat) {
    && d != [] && (forall i :: 0 <= i < |d| ==> 48 <= d[i] <= 57) && (|d| > 1 ==> d[0] != 48)
    && NumericValue(d) == n
  }

  /** Every number has exactly one numeral. */
  lemma {:induction false} DecimalExact(n: nat, d: Bytes)
    ensures IsNumeral(d, n) <==> d == Decimal(n)
  {
    DecimalIsNumeral(n);
    if IsNumeral(d, n) { NumeralIsDecimal(d, n); }
  }

  lemma {:induction false} DecimalIsNumeral(n: nat)
    ensures IsNumeral(Decimal(n), n) && (n > 0 ==> Decimal(n)[0] != 48)
  {
    var d := Decimal(n);
    if n < 10 {
      assert d[..0] == [];
    } else {
      DecimalIsNumeral(n / 10);
      assert d[..|d| - 1] == Decimal(n / 10);
    }
  }

  lemma {:induction false} NumeralIsDecimal(d: Bytes, n: nat)
    requires IsNumeral(d, n)
    ensures d == Decimal(n)
  {
    var init, last := d[..|d| - 1], d[|d| - 1] as int - 48;
    if |d| == 1 {
      assert init == [];
      assert NumericValue(init) == 0;
      assert NumericValue(d) == 10 * NumericValue(init) + last;
      assert d == [d[0]];
    } else {
      LeadingDigit(init);
      NumeralIsDecimal(init, NumericValue(init));
      assert n / 10 == NumericValue(init) && n % 10 == last;
      assert d == init + [d[|d| - 1]];
    }
  }

  lemma {:induction false} LeadingDigit(d: Bytes)
    requires d != [] && d[0] != 48 && forall i :: 0 <= i < |d| ==> 48 <= d[i] <= 57
    ensures NumericValue(d) >= 1
  {
    if |d| > 1 {
      LeadingDigit(d[..|d| - 1]);
    } else {
      assert d[..0] == [];
    }
  }

  /** The number left when the last `e` digits of `n` are struck out. */
  function DropDigits(n: nat, e: nat): nat {
    if e == 0 then n else DropDigits(n / 10, e - 1)
  }

  lemma {:induction false} DecimalInjective(a: nat, b: nat)
    requires Decimal(a) == Decimal(b)
    ensures a == b
  {
    var d, e := Decimal(a), Decimal(b);
    assert d[|d| - 1] == 48 + a % 10 && e[|e| - 1] == 48 + b % 10;
    if a >= 10 {
      assert d[..|d| - 1] == Decimal(a / 10) && e[..|e| - 1] == Decimal(b / 10);
      DecimalInjective(a / 10, b / 10);
    }
  }

  /** Striking out `e` digits of the numeral is the same as striking them out of the number. */
  lemma {:induction false} DecimalSplit(n: nat, e: nat)
    requires e < |Decimal(n)|
    ensures Decimal(DropDigits(n, e)) == Decimal(n)[..|Decimal(n)| - e]
  {
    var d := Decimal(n);
    if e == 0 {
      assert d[..|d|] == d;
    } else {
      assert n >= 10;
      var s := Decimal(n / 10);
      assert d[..|d| - 1] == s;
      DecimalSplit(n / 10, e - 1);
      assert s[..|s| - (e - 1)] == d[..|d| - e];
    }
  }

  // ---------- lexicographic order ----------

  predicate LexLess(a: Bytes, b: Bytes) {
    if b == [] then false
    else if a == [] then true
    else if a[0] != b[0] then a[0] < b[0]
    else LexLess(a[1..], b[1..])
  }

  /** The strings agree up to some place, where the first one ends or has the smaller byte. */
  lemma {:induction false} LexLessExact(a: Bytes, b: Bytes)
    ensures LexLess(a, b) <==>
      exists i :: 0 <= i < |b| && i <= |a| && a[..i] == b[..i] && (i == |a| || a[i] < b[i])
  {
    forall i | 0 < i < |b| && i <= |a| && a[..i] == b[..i]
      ensures a[0] == b[0] && a[1..][..i - 1] == b[1..][..i - 1]
    {
      SameHeads(a, b, i);
    }
    if a != [] && b != [] && a[0] == b[0] {
      var s, t := a[1..], b[1..];
      LexLessExact(s, t);
      forall i | 0 <= i < |t| && i <= |s| && s[..i] == t[..i] && (i == |s| || s[i] < t[i])
        ensures i + 1 < |b| && i + 1 <= |a| && a[..i + 1] == b[..i + 1] && (i + 1 == |a| || a[i + 1] < b[i + 1])
      {
        assert a[..i + 1] == [a[0]] + s[..i] && b[..i + 1] == [b[0]] + t[..i];
      }
    } else if b != [] {
      assert a[..0] == b[..0];
    }
  }

  lemma {:induction false} SameHeads(a: Bytes, b: Bytes, i: nat)
    requires 0 < i <= |a| && i <= |b| && a[..i] == b[..i]
    ensures a[0] == b[0] && a[1..][..i - 1] == b[1..][..i - 1]
  {
    assert a[..i][0] == a[0] && b[..i][0] == b[0];
    assert a[1..][..i - 1] == a[..i][1..] && b[1..][..i - 1] == b[..i][1..];
  }

  lemma {:induction false} LexTotal(a: Bytes, b: Bytes)
    ensures LexLess(a, b) || LexLess(b, a) || a == b
    ensures !(LexLess(a, b) && LexLess(b, a)) && (a == b ==> !LexLess(a, b))
  {
    if a != [] && b != [] && a[0] == b[0] {
      LexTotal(a[1..], b[1..]);
      assert a == [a[0]] + a[1..] && b == [b[0]] + b[1..];
    }
  }

  lemma {:induction false} LexTransitive(a: Bytes, b: Bytes, c: Bytes)
    requires LexLess(a, b) && LexLess(b, c)
    ensures LexLess(a, c)
  {
    if a != [] && a[0] == b[0] && b[0] == c[0] {
      LexTransitive(a[1..], b[1..], c[1..]);
    }
  }

  lemma {:induction false} LexCommonPrefix(p: Bytes, a: Bytes, b: Bytes)
    ensures LexLess(p + a, p + b) == LexLess(a, b)
  {
    if p == [] {
      assert p + a == a && p + b == b;
    } else {
      assert (p + a)[1..] == p[1..] + a && (p + b)[1..] == p[1..] + b;
      LexCommonPrefix(p[1..], a, b);
    }
  }

  /** Numerals with the same number of digits sort as their numbers do, whatever follows them. */
  lemma {:induction false} SameWidthOrder(a: nat, b: nat, s: Bytes, t: Bytes)
    requires |Decimal(a)| == |Decimal(b)| && a < b
    ensures LexLess(Decimal(a) + s, Decimal(b) + t)
  {
    if b < 10 {
    } else {
      var p, q := Decimal(a / 10), Decimal(b / 10);
      var x: Bytes, y: Bytes := [48 + a % 10], [48 + b % 10];
      assert Decimal(a) + s == p + (x + s) && Decimal(b) + t == q + (y + t);
      if a / 10 < b / 10 {
        SameWidthOrder(a / 10, b / 10, x + s, y + t);
      } else {
        LexCommonPrefix(p, x + s, y + t);
      }
    }
  }
}
