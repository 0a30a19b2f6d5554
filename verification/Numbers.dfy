/** Integers as the client prints and reads them: intlen, readLongLong and sdsll2str. */
module Numbers {
  import opened Bytes

  const TWO31: int := 0x8000_0000
  const TWO32: int := 0x1_0000_0000
  const TWO63: int := 0x8000_0000_0000_0000
  const TWO64: int := 0x1_0000_0000_0000_0000

  predicate IsInt64(x: int) {
    -TWO63 <= x < TWO63
  }

  /** Two's-complement wrap-around of 64-bit arithmetic. */
  function Wrap64(x: int): (w: int)
    ensures IsInt64(w)
    ensures IsInt64(x) ==> w == x
  {
    (x + TWO63) % TWO64 - TWO63
  }

  lemma WrapShift(x: int, k: int)
    ensures Wrap64(x + k * TWO64) == Wrap64(x)
  {
    var a := x + TWO63;
    assert (a + k * TWO64) % TWO64 == a % TWO64;
  }

  /** x and its wrapped value differ by a multiple of 2^64. */
  lemma WrapQuotient(x: int) returns (k: int)
    ensures Wrap64(x) == x + k * TWO64
  {
    k := -((x + TWO63) / TWO64);
  }

  /** Wrapping after every digit is the same as wrapping once. */
  lemma WrapStep(v: int, d: int)
    ensures Wrap64(Wrap64(Wrap64(v) * 10) + d) == Wrap64(v * 10 + d)
  {
    var j := WrapQuotient(v);
    var k := WrapQuotient(Wrap64(v) * 10);
    assert Wrap64(Wrap64(v) * 10) + d == (v * 10 + d) + (10 * j + k) * TWO64;
    WrapShift(v * 10 + d, 10 * j + k);
  }

  /** The cast of a 64-bit number to int keeps the low 32 bits. */
  function ToInt(x: int): (r: int)
    ensures -TWO31 <= r < TWO31
    ensures -TWO31 <= x < TWO31 ==> r == x
  {
    (x + TWO31) % TWO32 - TWO31
  }

  /** The conversion of an int to size_t: a negative number becomes a huge one. */
  function ToSize(x: int): (r: nat)
    ensures 0 <= x < TWO64 ==> r == x
  {
    x % TWO64
  }

  function Signed(negative: bool, v: int): int {
    if negative then -v else v
  }

  lemma WrapSigned(negative: bool, v: int)
    ensures Wrap64(Signed(negative, Wrap64(v))) == Wrap64(Signed(negative, v))
  {
    if negative {
      var k := WrapQuotient(v);
      assert -Wrap64(v) == -v + (-k) * TWO64;
      WrapShift(-v, -k);
    }
  }

  /** The decimal numeral of n, without leading zeros. */
  function Decimal(n: nat): (s: ByteString)
    ensures |s| >= 1
    ensures forall i :: 0 <= i < |s| ==> IsDigit(s[i])
  {
    if n < 10 then [ZERO + n] else Decimal(n / 10) + [ZERO + n % 10]
  }

  predicate AllDigits(s: ByteString) {
    forall i :: 0 <= i < |s| ==> IsDigit(s[i])
  }

  /** The number a string of digits denotes. */
  function Value(s: ByteString): nat
    requires AllDigits(s)
  {
    if s == [] then 0 else Value(s[..|s| - 1]) * 10 + (s[|s| - 1] - ZERO)
  }

  lemma {:induction false} DecimalValue(n: nat)
    ensures Value(Decimal(n)) == n
  {
    if n >= 10 {
      DecimalValue(n / 10);
      var s := Decimal(n);
      assert s[..|s| - 1] == Decimal(n / 10);
    }
  }

  lemma {:induction false} DecimalLength(n: nat, k: nat, bound: nat)
    requires k >= 1 && n < bound && bound == Pow10(k)
    ensures |Decimal(n)| <= k
  {
    if n >= 10 {
      DecimalLength(n / 10, k - 1, Pow10(k - 1));
    }
  }

  function Pow10(k: nat): (p: nat)
    ensures p >= 1
  {
    if k == 0 then 1 else 10 * Pow10(k - 1)
  }

  lemma QuotientUnique(n: nat, m: nat, q: nat, r: nat)
    requires m > 0 && r < m && n == m * q + r
    ensures n / m == q
  {
    var d := n / m - q;
    TimesFar(m, d);
    assert m * (n / m) + n % m == n;
    assert m * d == r - n % m;
  }

  lemma TimesFar(m: nat, d: int)
    requires m > 0
    ensures d > 0 ==> m * d >= m
    ensures d < 0 ==> m * d <= 0 - m
  {
  }

  lemma QuotientOfQuotient(n: nat, p: nat)
    requires p > 0
    ensures n / (10 * p) == n / 10 / p
  {
    var q, r := n / 10 / p, n / 10 % p;
    assert n / 10 == p * q + r;
    assert n == 10 * p * q + (10 * r + n % 10);
    QuotientUnique(n, 10 * p, q, 10 * r + n % 10);
  }

  /** The digit at place k, counted from the end, and no leading zero. */
  lemma {:induction false} DecimalDigits(n: nat, k: nat)
    requires k < |Decimal(n)|
    ensures Decimal(n)[|Decimal(n)| - 1 - k] == 48 + n / Pow10(k) % 10
    ensures n > 0 ==> Decimal(n)[0] != 48
    decreases n
  {
    if n >= 10 {
      DecimalDigits(n / 10, if k > 0 then k - 1 else 0);
      if k > 0 {
        QuotientOfQuotient(n, Pow10(k - 1));
      }
    }
  }

  /** A negative number is printed with a leading minus. */
  function Numeral(v: int): ByteString {
    if v < 0 then [MINUS] + Decimal(-v) else Decimal(v)
  }

  /** The part of a line before its first carriage return. */
  function UpToCR(s: ByteString): (r: ByteString)
    ensures CR !in r && r <= s
    ensures |r| < |s| ==> s[|r|] == CR
  {
    if s == [] || s[0] == CR then [] else [s[0]] + UpToCR(s[1..])
  }

  predicate HasMinus(t: ByteString) {
    t != [] && t[0] == MINUS
  }

  function WithoutSign(t: ByteString): (r: ByteString) {
    if t != [] && (t[0] == MINUS || t[0] == PLUS) then t[1..] else t
  }

  /** What readLongLong makes of a line: an optional sign, then digits up to
      the first carriage return; anything else reads as -1. */
  function ReadNumber(line: ByteString): int {
    var t := UpToCR(line);
    if AllDigits(WithoutSign(t)) then Wrap64(Signed(HasMinus(t), Value(WithoutSign(t)))) else -1
  }

  lemma {:induction false} UpToCRPrefix(s: ByteString, n: nat)
    requires n <= |s| && CR !in s[..n] && (n < |s| ==> s[n] == CR)
    ensures UpToCR(s) == s[..n]
  {
    if n > 0 {
      assert s[0] in s[..n];
      assert s[1..][..n - 1] == s[..n][1..];
      UpToCRPrefix(s[1..], n - 1);
    }
  }

  /** Printing a 64-bit value and reading it back gives the value. */
  lemma ReadNumeral(v: int)
    requires IsInt64(v)
    ensures ReadNumber(Numeral(v)) == v
  {
    var t := Numeral(v);
    UpToCRPrefix(t, |t|);
    assert t[..|t|] == t;
    DecimalValue(if v < 0 then -v else v);
    if v < 0 {
      assert t[1..] == Decimal(-v);
    }
  }

  /** The minimum needs 20 characters, and no value needs more. */
  lemma NumeralFits(v: int)
    requires IsInt64(v)
    ensures |Numeral(v)| <= 20
  {
    assert Pow10(19) == 10_000_000_000_000_000_000 by {
      assert Pow10(4) == 10_000;
      assert Pow10(8) == 100_000_000;
      assert Pow10(12) == 1_000_000_000_000;
      assert Pow10(16) == 10_000_000_000_000_000;
    }
    DecimalLength(if v < 0 then -v else v, 19, Pow10(19));
  }

  /** intlen: the number of characters of a printed int. */
  method IntLen(n: int) returns (len: nat)
    ensures len == |Numeral(n)|
  {
    var i := n;
    len := 0;
    if i < 0 {
      len := len + 1;
      i := -i;
    }
    ghost var total := len + |Decimal(i)|;
    len, i := len + 1, i / 10;
    while i != 0
      invariant i >= 0
      invariant total == len + if i == 0 then 0 else |Decimal(i)|
      decreases i
    {
      len, i := len + 1, i / 10;
    }
  }

  /** readLongLong: the value of the number at start. The caller has found the
      end of the line, so a carriage return stops the scan. */
  method ReadLongLong(data: array<Byte>, start: nat, ghost end: nat) returns (value: int)
    requires start <= end < data.Length && data[end] == CR
    ensures value == ReadNumber(data[start..end])
  {
    hide Wrap64, Value, AllDigits;
    ghost var text := SignSplit(data[..], start, end);
    assert data[start..end] == data[..][start..end];
    var s, mult := start, 1;
    if data[s] == MINUS {
      mult := -1;
      s := s + 1;
    } else if data[s] == PLUS {
      s := s + 1;
    }
    var v := ScanDigits(data, s, text);
    if v == None {
      return -1;
    }
    value := Wrap64(mult * v.value);
    assert mult * v.value == Signed(mult == -1, v.value);
    WrapSigned(mult == -1, Value(text));
  }

  /** Where the digits of a number lie in the buffer. */
  lemma SignSplit(d: ByteString, start: nat, end: nat) returns (text: ByteString)
    requires start <= end < |d| && d[end] == CR
    ensures text == WithoutSign(UpToCR(d[start..end]))
    ensures HasMinus(UpToCR(d[start..end])) == (d[start] == MINUS)
    ensures var s := if d[start] == MINUS || d[start] == PLUS then start + 1 else start;
            s + |text| < |d| && d[s + |text|] == CR && forall k :: 0 <= k < |text| ==> d[s + k] == text[k]
  {
    hide UpToCR;
    var line := d[start..end];
    var t := UpToCR(line);
    text := WithoutSign(t);
    forall k | 0 <= k < |t|
      ensures t[k] == d[start + k]
    {
      assert t[k] == line[k];
    }
    assert d[start + |t|] == CR by {
      assert |t| < |line| ==> line[|t|] == d[start + |t|];
    }
  }

  /** The accumulation loop of readLongLong, over the bytes before the carriage return. */
  method ScanDigits(data: array<Byte>, start: nat, ghost text: ByteString) returns (value: Option<int>)
    requires start + |text| < data.Length && forall k :: 0 <= k < |text| ==> data[start + k] == text[k]
    requires CR !in text && data[start + |text|] == CR
    ensures value == if AllDigits(text) then Some(Wrap64(Value(text))) else None
  {
    var s, v := start, 0;
    while data[s] != CR
      invariant start <= s <= start + |text|
      invariant s < start + |text| ==> data[s] == text[s - start]
      invariant AllDigits(text[..s - start])
      invariant v == Wrap64(Value(text[..s - start]))
      decreases start + |text| - s
    {
      ghost var n := s - start;
      assert text[n] == data[s];
      var dec := data[s] - ZERO;
      s := s + 1;
      if dec < 0 || dec >= 10 {
        return None;
      }
      assert text[..n + 1][..n] == text[..n];
      WrapStep(Value(text[..n]), dec);
      v := Wrap64(v * 10);
      v := Wrap64(v + dec);
    }
    assert s == start + |text| && text[..s - start] == text;
    value := Some(v);
  }

  /** sdsll2str: writes the digits backwards, then reverses them in place.
      The caller supplies SDS_LLSTR_SIZE bytes. */
  method Ll2Str(s: array<Byte>, value: int) returns (len: nat)
    requires IsInt64(value) && s.Length >= 21
    modifies s
    ensures len == |Numeral(value)| < s.Length
    ensures s[..len] == Numeral(value) && s[len] == NUL
  {
    NumeralFits(value);
    var p := WriteBackwards(s, if value < 0 then -value else value);
    if value < 0 {
      s[p] := MINUS;
      p := p + 1;
    }
    len := p;
    s[p] := NUL;
    ghost var numeral := Numeral(value);
    assert len == |numeral| && forall k :: 0 <= k < len ==> s[len - 1 - k] == numeral[k];
    Reverse(s, len);
  }

  /** The loop of sdsll2str that turns the text round. */
  method Reverse(s: array<Byte>, len: nat)
    requires len <= s.Length
    modifies s
    ensures forall k :: 0 <= k < len ==> s[k] == old(s[len - 1 - k])
    ensures forall k :: len <= k < s.Length ==> s[k] == old(s[k])
  {
    var a, b := 0, len - 1;
    while a < b
      invariant 0 <= a <= b + 1 <= len && a + b == len - 1
      invariant forall k :: 0 <= k < a || b < k < len ==> s[k] == old(s[len - 1 - k])
      invariant forall k :: a <= k <= b || len <= k < s.Length ==> s[k] == old(s[k])
      decreases b - a
    {
      var aux := s[a];
      s[a] := s[b];
      s[b] := aux;
      a, b := a + 1, b - 1;
    }
    assert a == b ==> len - 1 - a == a;
  }

  /** The digit loop of sdsll2str: the numeral of n, least significant digit first. */
  method WriteBackwards(s: array<Byte>, n: nat) returns (p: nat)
    requires |Decimal(n)| <= s.Length
    modifies s
    ensures p == |Decimal(n)|
    ensures forall k :: 0 <= k < p ==> s[k] == Decimal(n)[p - 1 - k]
  {
    ghost var text := Decimal(n);
    var v: nat := n / 10;
    p := 1;
    s[0] := ZERO + n % 10;
    while v != 0
      invariant 1 <= p <= |text|
      invariant if v == 0 then p == |text| else p < |text| && Decimal(v) == text[..|text| - p]
      invariant forall k :: 0 <= k < p ==> s[k] == text[|text| - 1 - k]
      decreases v
    {
      s[p] := ZERO + v % 10;
      p, v := p + 1, v / 10;
    }
  }
}
