/** The parts of Go's strconv, strings and int arithmetic that the server's text formats rely on. */
module GoText {
  import opened Options

  const MAX_INT := 0x7FFF_FFFF_FFFF_FFFF
  const MIN_INT := -0x8000_0000_0000_0000
  const TWO_64 := 0x1_0000_0000_0000_0000

  predicate IsInt64(n: int) { MIN_INT <= n <= MAX_INT }

  /** Two's complement wrap-around of a 64-bit int. */
  function Wrap64(n: int): (r: int)
    ensures IsInt64(r) && (r - n) % TWO_64 == 0
    ensures IsInt64(n) ==> r == n
  {
    (n - MIN_INT) % TWO_64 + MIN_INT
  }

  lemma WrapAdds(a: int, b: int)
    ensures Wrap64(Wrap64(a) + b) == Wrap64(a + b)
  {
    var x := a - MIN_INT;
    assert Wrap64(a) + b - MIN_INT == x % TWO_64 + b;
    assert x == TWO_64 * (x / TWO_64) + x % TWO_64;
    ModShift(x % TWO_64 + b, x / TWO_64);
  }

  lemma ModShift(x: int, k: int)
    ensures (x + TWO_64 * k) % TWO_64 == x % TWO_64
  {
  }

  lemma WrapMultiplies(a: int, b: int)
    ensures Wrap64(Wrap64(a) * Wrap64(b)) == Wrap64(a * b)
  {
    var i, j := (a - MIN_INT) / TWO_64, (b - MIN_INT) / TWO_64;
    var x, y := Wrap64(a), Wrap64(b);
    assert a == x + TWO_64 * i && b == y + TWO_64 * j;
    Expand(x, y, i, j);
    ModShift(x * y - MIN_INT, x * j + y * i + TWO_64 * i * j);
  }

  lemma Expand(x: int, y: int, i: int, j: int)
    ensures (x + TWO_64 * i) * (y + TWO_64 * j) == x * y + TWO_64 * (x * j + y * i + TWO_64 * i * j)
  {
  }

  lemma WrapSeparates(a: int, b: int)
    requires -TWO_64 < a - b < TWO_64 && a != b
    ensures Wrap64(a) != Wrap64(b)
  {
    var x, y := a - MIN_INT, b - MIN_INT;
    var q := x / TWO_64 - y / TWO_64;
    assert x - y == TWO_64 * q + (x % TWO_64 - y % TWO_64);
    assert q == 0 || TWO_64 * q >= TWO_64 || TWO_64 * q <= -TWO_64;
  }

  // ---- strconv ----

  predicate IsDigit(c: char) { '0' <= c <= '9' }

  predicate AllDigits(s: string) { forall i :: 0 <= i < |s| ==> IsDigit(s[i]) }

  function Digit(d: int): (c: char)
    requires 0 <= d < 10
    ensures IsDigit(c)
  {
    ('0' as int + d) as char
  }

  function Digits(n: nat): (s: string)
    ensures s != [] && AllDigits(s)
  {
    if n < 10 then [Digit(n)] else Digits(n / 10) + [Digit(n % 10)]
  }

  function DigitsValue(s: string): (v: int)
    requires AllDigits(s)
    ensures v >= 0
  {
    if s == [] then 0
    else 10 * DigitsValue(s[..|s| - 1]) + (s[|s| - 1] as int - '0' as int)
  }

  /** strconv.Itoa, and fmt's %d. */
  function Itoa(n: int): string {
    if n < 0 then ['-'] + Digits(-n) else Digits(n)
  }

  /** strconv.Atoi: an optional sign, at least one decimal digit and nothing else, within 64 bits. */
  function Atoi(s: string): Option<int> {
    var signed := s != [] && (s[0] == '-' || s[0] == '+');
    var digits := if signed then s[1..] else s;
    if digits == [] || !AllDigits(digits) then None
    else
      var n: int := if s[0] == '-' then -DigitsValue(digits) else DigitsValue(digits);
      if IsInt64(n) then Some(n) else None
  }

  lemma {:induction false} DigitsRoundTrip(n: nat)
    ensures DigitsValue(Digits(n)) == n
  {
    if n >= 10 {
      DigitsRoundTrip(n / 10);
      assert Digits(n)[..|Digits(n)| - 1] == Digits(n / 10);
    }
  }

  /** Atoi undoes Itoa on every 64-bit integer, and rejects what Itoa prints for any other. */
  lemma AtoiItoa(n: int)
    ensures Atoi(Itoa(n)) == if IsInt64(n) then Some(n) else None
  {
    DigitsRoundTrip(if n < 0 then -n else n);
    if n < 0 {
      assert Itoa(n)[1..] == Digits(-n);
    } else {
      assert IsDigit(Digits(n)[0]);
    }
  }

  function PowerOfTen(k: nat): nat { if k == 0 then 1 else 10 * PowerOfTen(k - 1) }

  /** Decimal notation read from its most significant digit. */
  function Decimal(s: string): int
    requires AllDigits(s)
  {
    if s == [] then 0 else (s[0] as int - 48) * PowerOfTen(|s| - 1) + Decimal(s[1..])
  }

  lemma {:induction false} DecimalSnoc(s: string, c: char)
    requires AllDigits(s) && IsDigit(c)
    ensures Decimal(s + [c]) == 10 * Decimal(s) + (c as int - 48)
    decreases s
  {
    if s == [] {
      assert [c][1..] == [];
      assert Decimal([c]) == (c as int - 48) * PowerOfTen(0);
    } else {
      var d := s[0] as int - 48;
      assert (s + [c])[1..] == s[1..] + [c];
      DecimalSnoc(s[1..], c);
      assert d * PowerOfTen(|s|) == 10 * (d * PowerOfTen(|s| - 1));
    }
  }

  lemma {:induction false} ValueIsDecimal(s: string)
    requires AllDigits(s)
    ensures DigitsValue(s) == Decimal(s)
    decreases s
  {
    if s != [] {
      var n := |s| - 1;
      ValueIsDecimal(s[..n]);
      DecimalSnoc(s[..n], s[n]);
      assert s[..n] + [s[n]] == s;
    }
  }

  /** Atoi reads decimal notation with an optional sign, within 64 bits. */
  lemma AtoiReads(ds: string)
    requires ds != [] && forall i :: 0 <= i < |ds| ==> '0' <= ds[i] <= '9'
    ensures var v := Decimal(ds);
            && Atoi(ds) == Atoi("+" + ds) == (if v <= 0x7FFF_FFFF_FFFF_FFFF then Some(v) else None)
            && Atoi("-" + ds) == (if v <= 0x8000_0000_0000_0000 then Some(-v) else None)
  {
    hide Decimal, DigitsValue, Atoi;
    assert AllDigits(ds);
    ValueIsDecimal(ds);
    assert "+" + ds == ['+'] + ds && "-" + ds == ['-'] + ds;
    AtoiPlain(ds);
    AtoiSigned('+', ds);
    AtoiSigned('-', ds);
  }

  lemma AtoiPlain(ds: string)
    requires ds != [] && AllDigits(ds)
    ensures Atoi(ds) == if DigitsValue(ds) <= MAX_INT then Some(DigitsValue(ds)) else None
  {
    hide DigitsValue;
    assert IsDigit(ds[0]);
  }

  lemma AtoiSigned(sign: char, ds: string)
    requires ds != [] && AllDigits(ds) && (sign == '+' || sign == '-')
    ensures var v := if sign == '-' then -DigitsValue(ds) else DigitsValue(ds);
            Atoi([sign] + ds) == if IsInt64(v) then Some(v) else None
  {
    hide DigitsValue, AllDigits;
    assert ([sign] + ds)[1..] == ds;
  }

  /** And nothing else. */
  lemma AtoiRefuses(s: string)
    requires Atoi(s).Some?
    ensures s != [] && forall i :: 1 <= i < |s| ==> '0' <= s[i] <= '9'
    ensures '0' <= s[0] <= '9' || ((s[0] == '+' || s[0] == '-') && |s| > 1)
  {
    hide DigitsValue;
    assert forall i :: 1 <= i < |s| ==> s[i] == s[1..][i - 1];
  }

  /** Itoa writes no leading zero and no plus sign. */
  lemma {:induction false} ItoaCanonical(n: int)
    ensures n < 0 ==> Itoa(n) == "-" + Itoa(-n)
    ensures n > 0 ==> Itoa(n)[0] != '0' && AllDigits(Itoa(n))
    ensures Itoa(0) == "0"
    decreases if n < 0 then 1 else 0, if n < 0 then -n else n
  {
    if n >= 10 {
      ItoaCanonical(n / 10);
      assert Digits(n) == Digits(n / 10) + [Digit(n % 10)];
    }
  }

  lemma ItoaInjective(m: int, n: int)
    requires Itoa(m) == Itoa(n)
    ensures m == n
  {
    DigitsRoundTrip(if n < 0 then -n else n);
    DigitsRoundTrip(if m < 0 then -m else m);
    assert IsDigit(Digits(if n < 0 then -n else n)[0]) && IsDigit(Digits(if m < 0 then -m else m)[0]);
    if n < 0 {
      assert Itoa(n)[1..] == Digits(-n) && Itoa(m)[1..] == Digits(-m);
    }
  }

  lemma ItoaChars(n: int, c: char)
    requires c in Itoa(n)
    ensures IsDigit(c) || c == '-'
  {
  }

  // ---- strings.IndexByte ----

  /** The first position of c, or |s| when there is none. */
  function Find(s: string, c: char): (i: nat)
    ensures i <= |s| && c !in s[..i]
    ensures i < |s| ==> s[i] == c
  {
    if s == [] then 0
    else if s[0] == c then 0
    else
      var i := Find(s[1..], c);
      assert s[..i + 1] == [s[0]] + s[1..][..i];
      i + 1
  }

  lemma {:induction false} FindAfterPrefix(a: string, c: char, rest: string)
    requires c !in a
    ensures Find(a + [c] + rest, c) == |a|
  {
    if a != [] {
      FindAfterPrefix(a[1..], c, rest);
      assert (a + [c] + rest)[1..] == a[1..] + [c] + rest;
    }
  }
}
