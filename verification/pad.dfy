/**
 * `pad(width, string, padding)` (bin/serve-clone.js:171-173): prepend the
 * padding until the string is at least `width` long.
 */
module Padding {
  import opened Text

  function Max(a: int, b: int): int
  {
    if a < b then b else a
  }

  /**
   * The recursion stops once the string is wide enough; with an empty
   * padding and a string that is too short it would never stop, which is
   * the precondition.
   */
  function Pad(width: int, s: string, padding: string): (r: string)
    requires |padding| > 0 || width <= |s|
    ensures EndsWith(r, s)
    ensures width <= |s| ==> r == s
    ensures |r| >= width
    ensures width > |s| ==> |r| < width + |padding|
    ensures |padding| == 1 ==> |r| == Max(width, |s|)
    decreases width - |s|
  {
    if width <= |s| then s
    else
      var r := Pad(width, padding + s, padding);
      assert r[|r| - |padding + s|..][|padding|..] == s;
      r
  }

  /** `n` copies of `p` side by side. */
  function Repeat(p: string, n: nat): (r: string)
    ensures |r| == n * |p|
  {
    if n == 0 then "" else Repeat(p, n - 1) + p
  }

  /** How many copies of the padding it takes to reach `width`: the ceiling of the shortfall over the padding length. */
  function Copies(width: int, len: nat, plen: nat): nat
    requires plen > 0
  {
    if width <= len then 0 else (width - len + plen - 1) / plen
  }

  lemma MulAtLeast(k: int, m: int)
    requires k >= 1 && m > 0
    ensures k * m >= m
  {
    assert k * m == (k - 1) * m + m;
    assert (k - 1) * m >= 0;
  }

  /** Euclidean division has one quotient. */
  lemma DivUnique(a: int, m: int, q: int, r: int)
    requires m > 0 && 0 <= r < m && a == q * m + r
    ensures a / m == q
  {
    var q' := a / m;
    var r' := a % m;
    assert a == q' * m + r';
    assert (q - q') * m == r' - r;
    if q - q' >= 1 {
      MulAtLeast(q - q', m);
    } else if q' - q >= 1 {
      MulAtLeast(q' - q, m);
    }
  }

  /** One copy of the padding covers one step of the recursion. */
  lemma CopiesStep(width: int, len: nat, plen: nat)
    requires plen > 0 && width > len
    ensures Copies(width, len, plen) == Copies(width, len + plen, plen) + 1
  {
    var d := width - len;
    if d <= plen {
      DivUnique(d + plen - 1, plen, 1, d - 1);
    } else {
      var x := d - 1;
      var q := x / plen;
      var r := x % plen;
      assert x == q * plen + r;
      DivUnique(x + plen, plen, q + 1, r);
    }
  }

  /** `pad` equals the closed form: the fewest copies of the padding that reach the width, then the string. */
  lemma {:induction false} PadClosedForm(width: int, s: string, padding: string)
    requires |padding| > 0
    ensures Pad(width, s, padding) == Repeat(padding, Copies(width, |s|, |padding|)) + s
    decreases width - |s|
  {
    if width > |s| {
      PadClosedForm(width, padding + s, padding);
      CopiesStep(width, |s|, |padding|);
      var n := Copies(width, |s| + |padding|, |padding|);
      assert Repeat(padding, n + 1) + s == Repeat(padding, n) + (padding + s);
    }
  }
}
