/** The few pieces of JavaScript number semantics the tournament logic depends on. */
module JsNum {
  import opened Wrappers

  /** The result of `parseInt`: `None` is `NaN`. */
  type JsInt = Option<int>

  /** A number field of a stored record. `parseInt` can leave `NaN` in memory, and
      `JSON.stringify` writes `NaN` as `null`, so after a save and a reload the same field
      holds `null`. The two compare differently, so they are kept apart here. */
  datatype StoredNumber = Num(n: int) | NaN | Null

  /** `JSON.parse(JSON.stringify(x))` on a number field: a number survives, `NaN` becomes
      `null`. */
  function JsonRoundTrip(x: StoredNumber): (y: StoredNumber)
    ensures y.NaN? == false
    ensures x.Num? ==> y == x
    ensures !x.Num? ==> y == Null
  {
    if x.NaN? then Null else x
  }

  /** `a >= x` for a count `a`: `null` converts to 0, and every comparison with `NaN` is
      false. */
  predicate AtLeast(a: nat, x: StoredNumber) {
    match x
    case Num(n) => a >= n
    case NaN => false
    case Null => true
  }

  /** JavaScript truthiness of a number: `0` and `NaN` are falsy. */
  predicate Truthy(x: JsInt) {
    x.Some? && x.value != 0
  }

  /** `a % b` as JavaScript computes it: truncated division, so the remainder
      takes the sign of the dividend (Dafny's own `%` is Euclidean). */
  function JsRem(a: int, b: int): (r: int)
    requires b != 0
    ensures a >= 0 ==> 0 <= r < Abs(b)
    ensures a < 0 ==> 0 - Abs(b) < r <= 0
    ensures (a - r) % Abs(b) == 0
  {
    var m := Abs(b);
    var q := Abs(a) / m;
    var rem := Abs(a) % m;
    MultipleRem(q, m);
    if a >= 0 then
      assert a - rem == q * m;
      rem
    else
      assert a + rem == (-q) * m;
      MultipleRem(-q, m);
      -rem
  }

  /** A multiple of m leaves no remainder. */
  lemma MultipleRem(q: int, m: nat)
    requires m >= 1
    ensures (q * m) % m == 0
  {
    var d, r := (q * m) / m, (q * m) % m;
    assert r == (q - d) * m;
    if q - d >= 1 {
      MulAtLeast(q - d, m);
    } else if d - q >= 1 {
      MulAtLeast(d - q, m);
    }
  }

  function Abs(x: int): nat {
    if x < 0 then -x else x
  }

  /** 2 to the power k. */
  function Pow2(k: nat): (p: nat)
    ensures p >= 1
  {
    if k == 0 then 1 else 2 * Pow2(k - 1)
  }

  predicate IsPow2(n: nat) {
    exists k: nat :: k <= n && Pow2(k) == n
  }

  /** `Math.ceil(Math.log2(n))` for n >= 1, computed exactly: the least k with 2^k >= n. */
  function CeilLog2(n: nat): (k: nat)
    ensures Pow2(k) >= n
    ensures k > 0 ==> Pow2(k - 1) < n
  {
    if n <= 1 then 0 else 1 + CeilLog2((n + 1) / 2)
  }

  lemma Pow2Half(k: nat)
    requires k >= 1
    ensures Pow2(k) == 2 * Pow2(k - 1)
    ensures Pow2(k) / 2 == Pow2(k - 1) && (Pow2(k) + 1) / 2 == Pow2(k - 1)
  {
  }

  lemma Pow2Exceeds(k: nat)
    ensures Pow2(k) > k
  {
    if k > 0 {
      Pow2Exceeds(k - 1);
    }
  }

  lemma Pow2Monotone(j: nat, k: nat)
    requires j <= k
    ensures Pow2(j) <= Pow2(k)
  {
    if j < k {
      Pow2Monotone(j, k - 1);
    }
  }

  /** n is a power of two exactly when padding it to a power of two changes nothing. */
  lemma {:induction false} IsPow2Iff(n: nat)
    requires n >= 1
    ensures IsPow2(n) <==> Pow2(CeilLog2(n)) == n
  {
    var k := CeilLog2(n);
    if Pow2(k) == n {
      Pow2Exceeds(k);
      assert k <= n && Pow2(k) == n;
    }
    if IsPow2(n) {
      var j: nat :| j <= n && Pow2(j) == n;
      if j < k {
        Pow2Monotone(j, k - 1);
      } else if k < j {
        Pow2Monotone(k + 1, j);
      }
    }
  }

  lemma MulAtLeast(d: nat, l: nat)
    requires d >= 1
    ensures d * l >= l
  {
    if d > 1 {
      MulAtLeast(d - 1, l);
    }
  }

  /** Euclidean division is determined by its defining equation. */
  lemma DivModUnique(n: nat, l: nat, q: nat, rem: nat)
    requires l >= 1 && rem < l && n == q * l + rem
    ensures n / l == q && n % l == rem
  {
    var q0, r0 := n / l, n % l;
    assert n == q0 * l + r0;
    if q0 > q {
      MulAtLeast(q0 - q, l);
    } else if q > q0 {
      MulAtLeast(q - q0, l);
    }
  }

  /** The decimal digit character for 0..9. */
  function DigitChar(d: nat): char
    requires d < 10
  {
    "0123456789"[d]
  }

  predicate IsDigit(c: char) {
    '0' <= c <= '9'
  }

  function DigitValue(c: char): nat
    requires IsDigit(c)
  {
    (c - '0') as nat
  }

  /** The decimal representation of a natural number, without leading zeros. */
  function NatString(n: nat): (s: string)
    ensures |s| >= 1
    ensures forall i :: 0 <= i < |s| ==> IsDigit(s[i])
    ensures |s| > 1 ==> s[0] != '0'
  {
    if n < 10 then [DigitChar(n)] else NatString(n / 10) + [DigitChar(n % 10)]
  }

  /** `String(n)` for an integer-valued JavaScript number. */
  function IntString(n: int): string {
    if n < 0 then "-" + NatString(-n) else NatString(n)
  }

  /** The value of a string of decimal digits. */
  function DigitsValue(s: string): nat
    requires forall i :: 0 <= i < |s| ==> IsDigit(s[i])
  {
    if |s| == 0 then 0 else 10 * DigitsValue(s[..|s| - 1]) + DigitValue(s[|s| - 1])
  }

  /** Reading the decimal representation back gives the number it was made from. */
  lemma {:induction false} NatStringRoundTrip(n: nat)
    ensures DigitsValue(NatString(n)) == n
  {
    var s := NatString(n);
    if n >= 10 {
      var p, d := NatString(n / 10), n % 10;
      NatStringRoundTrip(n / 10);
      DigitRoundTrip(d);
      assert s == p + [DigitChar(d)];
      assert s[..|s| - 1] == p;
      assert DigitsValue(s) == 10 * DigitsValue(p) + DigitValue(DigitChar(d));
    } else {
      DigitRoundTrip(n);
    }
  }

  lemma DigitRoundTrip(d: nat)
    requires d < 10
    ensures IsDigit(DigitChar(d)) && DigitValue(DigitChar(d)) == d
  {
  }
}
