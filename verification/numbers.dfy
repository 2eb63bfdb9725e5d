/** Rust's `from_str_radix` / `str::parse` into unsigned integer types,
    on ASCII text: an optional leading '+', then at least one digit of the
    radix ('0'-'9', then 'a'-'z' or 'A'-'Z' for 10 and up); the value must fit
    the type, whose values lie below `bound`. */
module Numbers {
  import opened Wrappers

  const U32_BOUND: nat := 0x1_0000_0000
  /** `usize` on a 64-bit target. */
  const USIZE_BOUND: nat := 0x1_0000_0000_0000_0000

  /** `char::to_digit(36)`: the value of a digit character. */
  function DigitValue(c: char): Option<nat> {
    if '0' <= c <= '9' then Some(c as nat - '0' as nat)
    else if 'a' <= c <= 'z' then Some(c as nat - 'a' as nat + 10)
    else if 'A' <= c <= 'Z' then Some(c as nat - 'A' as nat + 10)
    else None
  }

  predicate IsDigit(c: char, radix: nat) {
    DigitValue(c).Some? && DigitValue(c).value < radix
  }

  predicate AllDigits(s: string, radix: nat) {
    forall k :: 0 <= k < |s| ==> IsDigit(s[k], radix)
  }

  function Pow(b: nat, n: nat): nat {
    if n == 0 then 1 else b * Pow(b, n - 1)
  }

  /** The number the digit string denotes, most significant digit first. */
  function ValueOf(ds: string, radix: nat): nat
    requires AllDigits(ds, radix)
  {
    if |ds| == 0 then 0
    else ValueOf(ds[..|ds| - 1], radix) * radix + DigitValue(ds[|ds| - 1]).value
  }

  /** The text with at most one leading '+' removed. */
  function Magnitude(s: string): string {
    if |s| > 0 && s[0] == '+' then s[1..] else s
  }

  /** `from_str_radix` into a type whose values lie below `bound`: `None` is
      the `Err` the source then unwraps or matches on. */
  function ParseUnsigned(s: string, radix: nat, bound: nat): (r: Option<nat>)
    requires 2 <= radix <= 36
    ensures r.Some? ==> r.value < bound
    ensures r.Some? ==> |Magnitude(s)| > 0 && AllDigits(Magnitude(s), radix)
  {
    var ds := Magnitude(s);
    if |ds| > 0 && AllDigits(ds, radix) && ValueOf(ds, radix) < bound
    then Some(ValueOf(ds, radix))
    else None
  }

  /** `str::parse::<u32>()`. */
  function ParseU32(s: string): Option<nat> {
    ParseUnsigned(s, 10, U32_BOUND)
  }

  /** `str::parse::<usize>()`. */
  function ParseUsize(s: string): Option<nat> {
    ParseUnsigned(s, 10, USIZE_BOUND)
  }

  /** A digit string of `n` digits denotes a value below `radix^n`. */
  lemma {:induction false} ValueBound(ds: string, radix: nat)
    requires AllDigits(ds, radix)
    ensures ValueOf(ds, radix) < Pow(radix, |ds|)
    decreases |ds|
  {
    if |ds| > 0 {
      var init := ds[..|ds| - 1];
      assert AllDigits(init, radix) by {
        forall k | 0 <= k < |init| ensures IsDigit(init[k], radix) { assert init[k] == ds[k]; }
      }
      ValueBound(init, radix);
      var v, d, p := ValueOf(init, radix), DigitValue(ds[|ds| - 1]).value, Pow(radix, |init|);
      assert ValueOf(ds, radix) == v * radix + d;
      assert Pow(radix, |ds|) == radix * p;
      BoundStep(v, d, p, radix);
    }
  }

  lemma BoundStep(v: nat, d: nat, p: nat, radix: nat)
    requires v < p && d < radix
    ensures v * radix + d < radix * p
  {
    MulMonotone(v + 1, p, radix);
  }

  lemma MulMonotone(a: nat, b: nat, c: nat)
    requires a <= b
    ensures a * c <= b * c
  {}

  /** The lower-case digit character for `d`. */
  function DigitChar(d: nat): (c: char)
    requires d < 36
    ensures DigitValue(c) == Some(d)
  {
    if d < 10 then ('0' as nat + d) as char else ('a' as nat + d - 10) as char
  }

  /** The canonical rendering of `n` in `radix`, without leading zeros. */
  function Format(n: nat, radix: nat): (s: string)
    requires 2 <= radix <= 36
    ensures |s| > 0 && AllDigits(s, radix)
    decreases n
  {
    if n < radix then [DigitChar(n)]
    else
      var q, d := n / radix, n % radix;
      DivMod(n, radix);
      var init := Format(q, radix);
      var c := DigitChar(d);
      assert IsDigit(c, radix);
      assert forall k :: 0 <= k < |init| ==> (init + [c])[k] == init[k];
      init + [c]
  }

  lemma DivMod(n: nat, m: nat)
    requires m > 0
    ensures n % m < m && n / m <= n
    ensures n == (n / m) * m + n % m
    ensures m > 1 && n >= m ==> 0 < n / m < n
  {
    var q, r := n / m, n % m;
    assert n == q * m + r;
    if m > 1 && n >= m {
      MulMonotone(2, m, q);
      assert 2 * q <= q * m;
    }
  }

  /** Reading a rendered number gives the number back. */
  lemma {:induction false} FormatValue(n: nat, radix: nat)
    requires 2 <= radix <= 36
    ensures ValueOf(Format(n, radix), radix) == n
    decreases n
  {
    var s := Format(n, radix);
    if n < radix {
      assert s[..0] == "";
    } else {
      var q, d := n / radix, n % radix;
      DivMod(n, radix);
      FormatValue(q, radix);
      assert s[..|s| - 1] == Format(q, radix);
      assert DigitValue(s[|s| - 1]).value == d;
    }
  }

  /** A decimal string holds no character other than the ten digits. */
  lemma DecimalHasNo(s: string, c: char)
    requires AllDigits(s, 10) && !('0' <= c <= '9')
    ensures c !in s
  {
  }

  /** `from_str_radix` accepts every rendered value that fits the type, and
      returns it. */
  lemma ParseFormat(n: nat, radix: nat, bound: nat)
    requires 2 <= radix <= 36 && n < bound
    ensures ParseUnsigned(Format(n, radix), radix, bound) == Some(n)
  {
    var s := Format(n, radix);
    assert Magnitude(s) == s by { assert IsDigit(s[0], radix); }
    FormatValue(n, radix);
  }

  lemma AllDigitsAppend(a: string, b: string, radix: nat)
    requires AllDigits(a, radix) && AllDigits(b, radix)
    ensures AllDigits(a + b, radix)
  {
    forall k | 0 <= k < |a + b| ensures IsDigit((a + b)[k], radix) {
      if k < |a| { assert (a + b)[k] == a[k]; } else { assert (a + b)[k] == b[k - |a|]; }
    }
  }

  /** The digits of `a + b` denote the value of `a` shifted left by `|b|`
      places, plus the value of `b`. */
  lemma {:induction false} ValueOfAppend(a: string, b: string, radix: nat)
    requires AllDigits(a, radix) && AllDigits(b, radix)
    ensures AllDigits(a + b, radix)
    ensures ValueOf(a + b, radix) == ValueOf(a, radix) * Pow(radix, |b|) + ValueOf(b, radix)
    decreases |b|
  {
    AllDigitsAppend(a, b, radix);
    if |b| == 0 {
      assert a + b == a;
    } else {
      var n := |b| - 1;
      var b' := b[..n];
      assert AllDigits(b', radix) by {
        forall k | 0 <= k < n ensures IsDigit(b'[k], radix) { assert b'[k] == b[k]; }
      }
      ValueOfAppend(a, b', radix);
      var ab := a + b;
      assert ab[..|ab| - 1] == a + b';
      assert ab[|ab| - 1] == b[n];
      var va, vb', d, p := ValueOf(a, radix), ValueOf(b', radix), DigitValue(b[n]).value, Pow(radix, n);
      assert ValueOf(ab, radix) == ValueOf(a + b', radix) * radix + d;
      assert ValueOf(b, radix) == vb' * radix + d;
      assert Pow(radix, |b|) == radix * p;
      ShiftStep(va, p, vb', radix);
    }
  }

  lemma ShiftStep(x: nat, p: nat, y: nat, r: nat)
    ensures (x * p + y) * r == x * (r * p) + y * r
  {
    calc {
      (x * p + y) * r;
      x * p * r + y * r;
      x * (r * p) + y * r;
    }
  }

  /** Only decimal-looking digits ('0'-'9'), each below the radix. */
  predicate PlainDigits(s: string, radix: nat) {
    forall k :: 0 <= k < |s| ==> '0' <= s[k] <= '9' && (s[k] as nat - '0' as nat) < radix
  }

  /** Two plain digit strings of the same length that denote the same value
      are the same string. */
  lemma {:induction false} ValueOfInjective(a: string, b: string, radix: nat)
    requires 2 <= radix && |a| == |b|
    requires PlainDigits(a, radix) && PlainDigits(b, radix)
    requires AllDigits(a, radix) && AllDigits(b, radix)
    requires ValueOf(a, radix) == ValueOf(b, radix)
    ensures a == b
    decreases |a|
  {
    if |a| > 0 {
      var n := |a| - 1;
      var va, vb := ValueOf(a[..n], radix), ValueOf(b[..n], radix);
      var da, db := DigitValue(a[n]).value, DigitValue(b[n]).value;
      DivModUnique(va, da, vb, db, radix);
      assert AllDigits(a[..n], radix) && PlainDigits(a[..n], radix) by {
        forall k | 0 <= k < n ensures a[..n][k] == a[k] {}
      }
      assert AllDigits(b[..n], radix) && PlainDigits(b[..n], radix) by {
        forall k | 0 <= k < n ensures b[..n][k] == b[k] {}
      }
      ValueOfInjective(a[..n], b[..n], radix);
      assert a[n] == b[n];
      assert a == a[..n] + [a[n]] && b == b[..n] + [b[n]];
    }
  }

  lemma DivModUnique(q1: nat, r1: nat, q2: nat, r2: nat, m: nat)
    requires r1 < m && r2 < m
    requires q1 * m + r1 == q2 * m + r2
    ensures q1 == q2 && r1 == r2
  {
    if q1 < q2 {
      MulMonotone(q1 + 1, q2, m);
    } else if q2 < q1 {
      MulMonotone(q2 + 1, q1, m);
    }
  }

  /** The quotient and remainder are determined by any decomposition
      n == q * m + r with r below m. */
  lemma DivModOf(n: nat, m: nat, q: nat, r: nat)
    requires m > 0 && r < m && n == q * m + r
    ensures n / m == q && n % m == r
  {
    DivMod(n, m);
    DivModUnique(n / m, n % m, q, r, m);
  }

  lemma Distribute(a: nat, b: nat, m: nat)
    ensures (a + b) * m == a * m + b * m
  {
  }

  /** Adding a multiple of the modulus does not change the remainder. */
  lemma ModShift(q: nat, x: nat, m: nat)
    requires m > 0
    ensures (q * m + x) % m == x % m
  {
    DivMod(x, m);
    Distribute(q, x / m, m);
    DivModOf(q * m + x, m, q + x / m, x % m);
  }

  /** Reducing before an addition does not change the remainder. */
  lemma ModAdd(a: nat, d: nat, m: nat)
    requires m > 0
    ensures (a % m + d) % m == (a + d) % m
  {
    DivMod(a, m);
    ModShift(a / m, a % m + d, m);
  }
}
