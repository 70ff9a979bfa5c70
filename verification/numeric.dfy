/** Octets and big-endian positional notation in an arbitrary base, shared by
    the DER length field (base 256) and OID sub-identifiers (base 128). */
module Numeric {

  /** An unsigned octet. */
  type byte = x: int | 0 <= x < 256

  function Pow(base: nat, k: nat): (p: nat)
    ensures base >= 1 ==> p >= 1
  {
    if k == 0 then 1 else base * Pow(base, k - 1)
  }

  /** The shortest big-endian digit string of `n` (zero is `[0]`). */
  function ToDigits(n: nat, base: nat): (ds: seq<nat>)
    requires base >= 2
    ensures Canonical(ds, base)
    decreases n
  {
    if n < base then [n]
    else
      DivMod(n, base);
      ToDigits(n / base, base) + [n % base]
  }

  /** Euclidean division by a base, as the digit functions use it. */
  lemma DivMod(n: nat, base: nat)
    requires base >= 2
    ensures n == (n / base) * base + n % base
    ensures 0 <= n % base < base
    ensures n >= base ==> 1 <= n / base < n
  {
  }

  /** The number a big-endian digit string denotes. */
  function FromDigits(ds: seq<nat>, base: nat): nat
    decreases |ds|
  {
    if ds == [] then 0 else FromDigits(ds[..|ds| - 1], base) * base + ds[|ds| - 1]
  }

  /** A non-empty digit string with every digit below `base` and no leading zero. */
  predicate Canonical(ds: seq<nat>, base: nat) {
    && |ds| >= 1
    && (forall i :: 0 <= i < |ds| ==> ds[i] < base)
    && (|ds| > 1 ==> ds[0] != 0)
  }

  /** Unfolds FromDigits on a digit string with its last digit split off. */
  lemma FromDigitsSnoc(init: seq<nat>, d: nat, base: nat)
    ensures FromDigits(init + [d], base) == FromDigits(init, base) * base + d
  {
    assert (init + [d])[..|init|] == init;
  }

  lemma {:induction false} FromToDigits(n: nat, base: nat)
    requires base >= 2
    ensures FromDigits(ToDigits(n, base), base) == n
    decreases n
  {
    if n >= base {
      DivMod(n, base);
      FromToDigits(n / base, base);
      FromDigitsSnoc(ToDigits(n / base, base), n % base, base);
    }
  }

  lemma {:induction false} LeadingDigitPositive(ds: seq<nat>, base: nat)
    requires base >= 1 && |ds| >= 1 && ds[0] > 0
    ensures FromDigits(ds, base) > 0
    decreases |ds|
  {
    if |ds| > 1 {
      var init := ds[..|ds| - 1];
      assert init[0] == ds[0];
      LeadingDigitPositive(init, base);
      var f := FromDigits(init, base);
      assert FromDigits(ds, base) == f * base + ds[|ds| - 1];
      MulMonotone(1, f, base);
    }
  }

  /** Every canonical digit string is the one ToDigits produces for its value. */
  lemma {:induction false} ToFromDigits(ds: seq<nat>, base: nat)
    requires base >= 2 && Canonical(ds, base)
    ensures ToDigits(FromDigits(ds, base), base) == ds
    decreases |ds|
  {
    if |ds| > 1 {
      var init := ds[..|ds| - 1];
      var last := ds[|ds| - 1];
      assert init[0] == ds[0];
      assert Canonical(init, base);
      LeadingDigitPositive(init, base);
      var f := FromDigits(init, base);
      var n := FromDigits(ds, base);
      assert n == f * base + last;
      MulMonotone(1, f, base);
      DivModUnique(n, base, f, last);
      ToFromDigits(init, base);
      assert ds == init + [last];
    }
  }

  /** Quotient and remainder are determined by n == q * base + r with r < base. */
  lemma DivModUnique(n: nat, base: nat, q: nat, r: nat)
    requires base >= 2 && r < base && n == q * base + r
    ensures n / base == q && n % base == r
  {
    DivMod(n, base);
    var q' := n / base;
    if q' < q {
      MulMonotone(q' + 1, q, base);
    } else if q' > q {
      MulMonotone(q + 1, q', base);
    }
  }

  lemma MulMonotone(a: nat, b: nat, c: nat)
    requires a <= b
    ensures a * c <= b * c
  {
  }

  /** A digit string of length k denotes a number below base^k. */
  lemma {:induction false} FromDigitsBound(ds: seq<nat>, base: nat)
    requires base >= 1 && forall i :: 0 <= i < |ds| ==> ds[i] < base
    ensures FromDigits(ds, base) < Pow(base, |ds|)
    decreases |ds|
  {
    if ds != [] {
      var init := ds[..|ds| - 1];
      FromDigitsBound(init, base);
      var f := FromDigits(init, base);
      var p := Pow(base, |init|);
      assert Pow(base, |ds|) == base * p;
      MulMonotone(f + 1, p, base);
      assert FromDigits(ds, base) == f * base + ds[|ds| - 1];
      assert (f + 1) * base == f * base + base;
    }
  }

  /** A number below base^k has at most k digits. */
  lemma {:induction false} ToDigitsLength(n: nat, base: nat, k: nat)
    requires base >= 2 && k >= 1 && n < Pow(base, k)
    ensures |ToDigits(n, base)| <= k
    decreases n
  {
    if n >= base {
      DivMod(n, base);
      var p := Pow(base, k - 1);
      assert Pow(base, k) == base * p;
      assert Pow(base, 1) == base;
      assert k >= 2;
      assert n / base < p by {
        if n / base >= p {
          MulMonotone(p, n / base, base);
        }
      }
      ToDigitsLength(n / base, base, k - 1);
    }
  }
}
