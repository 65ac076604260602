/** Small shared vocabulary: optional values, integer ceiling division,
    three facts about products and two about sequence prefixes. */
module Basics {

  /** A value that may be absent (JavaScript's `undefined`/`null`). */
  datatype Option<T> = None | Some(value: T)

  /** `Math.ceil(x / d)` for integers, with `d` non-zero. */
  function CeilDiv(x: int, d: int): (r: int)
    requires d != 0
    ensures d > 0 ==> d * (r - 1) < x <= d * r
    ensures d < 0 ==> d * r <= x < d * (r - 1)
  {
    if d > 0 then -((-x) / d) else -(x / (-d))
  }

  /** The sign of a multiple of a positive number, and its exact quotient. */
  lemma MulSign(k: int, n: int)
    requires n > 0
    ensures k * n >= 0 <==> k >= 0
    ensures k >= 0 ==> (k * n) % n == 0 && (k * n) / n == k
  {
    if k >= 0 {
      DivMulExact(k, n);
    } else {
      assert k * n == -((-k) * n);
      assert (-k) * n >= n;
    }
  }

  /** Dividing a multiple of `n` by `n` leaves no remainder. */
  lemma DivMulExact(k: nat, n: int)
    requires n > 0
    ensures k * n >= 0 && (k * n) % n == 0 && (k * n) / n == k
  {
    var x := k * n;
    var q, m := x / n, x % n;
    assert x == q * n + m && 0 <= m < n;
    assert (k - q) * n == m;
    if k - q >= 1 {
      MulAtLeast(k - q, n);
    } else if k - q <= -1 {
      assert (k - q) * n == -((q - k) * n);
      MulAtLeast(q - k, n);
    }
  }

  /** A positive multiple of `n` is at least `n`. */
  lemma MulAtLeast(a: int, n: int)
    requires a >= 1 && n > 0
    ensures a * n >= n
  {
    assert a * n == (a - 1) * n + n;
    assert (a - 1) * n >= 0;
  }

  /** Extending a prefix by one element. */
  lemma TakeOneMore<T>(s: seq<T>, i: int)
    requires 0 <= i < |s|
    ensures s[..i + 1] == s[..i] + [s[i]]
  {
  }

  lemma TakeAll<T>(s: seq<T>)
    ensures s[..|s|] == s
  {
  }
}
