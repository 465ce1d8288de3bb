/** Integer helpers and the additive secret splitter of the threshold-RSA
    helper layer (helpers.py).

    The big-integer primitives of gmpy2 are modelled on Dafny's unbounded
    `int`.  Dafny's `/` and `%` are Euclidean, whereas gmpy2's `t_div` and
    `t_mod` truncate toward zero, so the truncating operations are written
    out explicitly here. */
module Helpers {

  function Abs(x: int): nat {
    if x < 0 then -x else x
  }

  /** A positive multiple of a positive number is at least that number.
      The body keeps the solver's nonlinear reasoning stable. */
  lemma {:induction false} MulAtLeast(z: int, y: int)
    requires 1 <= z && 0 < y
    ensures y <= z * y
  {
    if z > 1 {
      MulAtLeast(z - 1, y);
      assert z * y == (z - 1) * y + y;
    }
  }

  /** The only multiple of `y` smaller than `y` in magnitude is zero.
      The body keeps the solver's nonlinear reasoning stable. */
  lemma SmallMultipleIsZero(z: int, y: int)
    requires y != 0 && Abs(z * y) < Abs(y)
    ensures z == 0
  {
    if z != 0 {
      MulAtLeast(Abs(z), Abs(y));
    }
  }

  /** Rounding the quotient of the magnitudes toward zero and giving it the
      sign of x / y leaves a remainder with the sign of `x`.  The case
      split keeps the solver's nonlinear reasoning stable. */
  lemma TruncQuotient(x: int, y: int)
    requires y != 0
    ensures var a := Abs(x) / Abs(y);
            var q := if (x < 0) == (y < 0) then a else -a;
            Abs(x - q * y) < Abs(y) && (0 <= x ==> 0 <= x - q * y) && (x <= 0 ==> x - q * y <= 0)
  {
    var ax: int, ay: int := Abs(x), Abs(y);
    var a: int, rr: int := ax / ay, ax % ay;
    assert ax == a * ay + rr && 0 <= rr < ay;
    var q: int := if (x < 0) == (y < 0) then a else -a;
    if x >= 0 && y > 0 {
      assert x - q * y == rr;
    } else if x >= 0 {
      assert q * y == (-a) * (-ay) == a * ay;
      assert x - q * y == rr;
    } else if y > 0 {
      assert q * y == -(a * ay);
      assert x - q * y == -rr;
    } else {
      assert q * y == a * (-ay) == -(a * ay);
      assert x - q * y == -rr;
    }
  }

  /** `divide(x, y)`: gmpy2's `t_div`, the quotient rounded toward zero.
      Its remainder is smaller than the divisor in magnitude and never has
      the opposite sign of the dividend; lemma DivideUnique shows that this
      determines the quotient. */
  function Divide(x: int, y: int): (q: int)
    requires y != 0
    ensures Abs(x - q * y) < Abs(y)
    ensures 0 <= x ==> 0 <= x - q * y
    ensures x <= 0 ==> x - q * y <= 0
  {
    TruncQuotient(x, y);
    var a := Abs(x) / Abs(y);
    if (x < 0) == (y < 0) then a else -a
  }

  /** gmpy2's `t_mod`: the remainder left by `t_div`, whose sign follows the
      dividend. */
  function TMod(x: int, m: int): (r: int)
    requires m != 0
    ensures Abs(r) < Abs(m)
    ensures 0 <= x ==> 0 <= r
    ensures x <= 0 ==> r <= 0
    ensures x - r == Divide(x, m) * m
  {
    x - Divide(x, m) * m
  }

  /** A multiple of `m` leaves no remainder. */
  lemma MultipleMod(k: int, m: int)
    requires m != 0
    ensures (k * m) % m == 0
  {
    var q, r := (k * m) / m, (k * m) % m;
    assert k * m == q * m + r;
    assert r == (k - q) * m;
    SmallMultipleIsZero(k - q, m);
  }

  /** `mod(x, m)`: the truncated remainder, moved up by `m` when it is
      negative.  The result is always congruent to `x`; for a positive
      modulus it is the canonical residue in [0, m). */
  function Mod(x: int, m: int): (r: int)
    requires m != 0
    ensures (x - r) % m == 0
    ensures 0 < m ==> 0 <= r < m
  {
    var remainder := TMod(x, m);
    var q := Divide(x, m);
    if remainder < 0 then
      assert x - (remainder + m) == (q - 1) * m;
      MultipleMod(q - 1, m);
      remainder + m
    else
      MultipleMod(q, m);
      remainder
  }

  /** Two residues in [0, m) that are congruent modulo m are equal. */
  lemma CongruentResiduesEqual(a: int, b: int, m: int)
    requires 0 <= a < m && 0 <= b < m
    requires (a - b) % m == 0
    ensures a == b
  {
  }

  /** Congruence modulo m is transitive through a common value. */
  lemma {:induction false} CongruentThrough(x: int, a: int, b: int, m: int)
    requires m != 0
    requires (x - a) % m == 0 && (x - b) % m == 0
    ensures (a - b) % m == 0
  {
    var p, q := (x - a) / m, (x - b) / m;
    assert x - a == p * m;
    assert x - b == q * m;
    assert a - b == (q - p) * m;
    MultipleMod(q - p, m);
  }

  /** The canonical residue is unique: any value in [0, m) congruent to `x`
      is `Mod(x, m)`. */
  lemma {:induction false} ModUnique(x: int, m: int, r: int)
    requires 0 < m
    requires 0 <= r < m && (x - r) % m == 0
    ensures r == Mod(x, m)
  {
    var s := Mod(x, m);
    CongruentThrough(x, r, s, m);
    CongruentResiduesEqual(r, s, m);
  }

  /** For a positive modulus, `mod` agrees with the Euclidean remainder, the
      non-negative residue that Python's own `%` also gives. */
  lemma {:induction false} ModIsEuclidean(x: int, m: int)
    requires 0 < m
    ensures Mod(x, m) == x % m
  {
    var q := x / m;
    assert x - x % m == q * m;
    MultipleMod(q, m);
    ModUnique(x, m, x % m);
  }

  /** A value already in [0, m) is left unchanged. */
  lemma ModOfResidue(x: int, m: int)
    requires 0 <= x < m
    ensures Mod(x, m) == x
  {
    ModUnique(x, m, x);
  }

  /** Reducing twice is the same as reducing once. */
  lemma ModIdempotent(x: int, m: int)
    requires 0 < m
    ensures Mod(Mod(x, m), m) == Mod(x, m)
  {
    ModOfResidue(Mod(x, m), m);
  }

  /** For a non-negative dividend the adjustment branch of `mod` is never
      taken: the truncated remainder is already the result. */
  lemma NonNegativeNeedsNoAdjustment(x: int, m: int)
    requires 0 <= x && m != 0
    ensures 0 <= TMod(x, m) && Mod(x, m) == TMod(x, m)
  {
  }

  /** With a negative modulus `mod` does not normalise: its result lies in
      (2m, m) or in [0, -m), never in [m, 0), and for a negative dividend
      that is not a multiple of m it drops below m. */
  lemma ModWithNegativeModulus(x: int, m: int)
    requires m < 0
    ensures 2 * m < Mod(x, m) < -m
    ensures Mod(x, m) < m || 0 <= Mod(x, m)
    ensures x < 0 ==> Mod(x, m) == 0 || Mod(x, m) < m
  {
  }

  /** The truncated quotient is the only one whose remainder is smaller than
      the divisor in magnitude and has the dividend's sign. */
  lemma DivideUnique(x: int, y: int, q: int)
    requires y != 0
    requires Abs(x - q * y) < Abs(y)
    requires 0 <= x ==> 0 <= x - q * y
    requires x <= 0 ==> x - q * y <= 0
    ensures q == Divide(x, y)
  {
    var p := Divide(x, y);
    assert (x - p * y) - (x - q * y) == (q - p) * y;
    SmallMultipleIsZero(q - p, y);
  }

  /** On a non-negative dividend and a positive divisor, truncation and
      floor division coincide. */
  lemma DivideIsFloorOnNaturals(x: int, y: int)
    requires 0 <= x && 0 < y
    ensures Divide(x, y) == x / y
  {
    DivideUnique(x, y, x / y);
  }

  /** A negative dividend is rounded up toward zero, not down. */
  lemma DivideOfNegative(x: int, y: int)
    requires x < 0 && 0 < y
    ensures Divide(x, y) == -((-x) / y)
  {
    var q := -((-x) / y);
    assert x - q * y == -((-x) - ((-x) / y) * y);
    DivideUnique(x, y, q);
  }

  /** `subtract(x, y)`: plain integer subtraction, the inverse of adding `y`. */
  function Subtract(x: int, y: int): (r: int)
    ensures r + y == x
  {
    x - y
  }

  /** `get_random_int(n)`: some integer between 0 and n - 1.  Only the range
      is modelled; any value in it may be returned. */
  method RandomInt(n: int) returns (r: int)
    requires 0 < n
    ensures 0 <= r < n
  {
    r :| 0 <= r < n;
  }

  /** The sum of a list of integers, summed left to right: the last element
      is peeled off, matching the order in which `d_i_creator` subtracts. */
  function Sum(s: seq<int>): int {
    if s == [] then 0 else Sum(s[..|s| - 1]) + s[|s| - 1]
  }

  /** A sum of `|s|` values each in [0, b) lies between 0 and |s| * (b - 1). */
  lemma {:induction false} SumBounds(s: seq<int>, b: int)
    requires forall i :: 0 <= i < |s| ==> 0 <= s[i] < b
    ensures 0 <= Sum(s) <= |s| * (b - 1)
  {
    if s != [] {
      var init := s[..|s| - 1];
      assert forall i :: 0 <= i < |init| ==> init[i] == s[i];
      SumBounds(init, b);
      assert |s| * (b - 1) == |init| * (b - 1) + (b - 1);
    }
  }

  /** The bound `d_i_creator` passes to every random draw. */
  function DrawBound(d: int): (b: int)
    ensures 0 < b <==> 10 <= d
  {
    Divide(d, 10)
  }

  /** The shape of a result of `d_i_creator(d, n)`: max(n, 1) shares, all
      but the last drawn from [0, divide(d, 10)), and the last one `d` minus
      the sum of the others. */
  ghost predicate IsAdditiveSplit(d: int, n: int, shares: seq<int>) {
    |shares| == (if n <= 1 then 1 else n) &&
    (forall i :: 0 <= i < |shares| - 1 ==> 0 <= shares[i] < DrawBound(d)) &&
    shares[|shares| - 1] == d - Sum(shares[..|shares| - 1])
  }

  /** The shares of a split always add up to the secret. */
  lemma {:induction false} SplitSumsToSecret(d: int, n: int, shares: seq<int>)
    requires IsAdditiveSplit(d, n, shares)
    ensures Sum(shares) == d
  {
    assert shares != [];
  }

  /** With at most one party the secret itself is the only share. */
  lemma SplitOfOne(d: int, n: int, shares: seq<int>)
    requires n <= 1 && IsAdditiveSplit(d, n, shares)
    ensures shares == [d]
  {
    assert shares[..0] == [];
  }

  /** The last share is the secret reduced by at most (n - 1) times the
      largest draw, and is never larger than the secret. */
  lemma {:induction false} SplitLastShareRange(d: int, n: int, shares: seq<int>)
    requires 2 <= n && IsAdditiveSplit(d, n, shares)
    ensures d - (n - 1) * (DrawBound(d) - 1) <= shares[n - 1] <= d
  {
    var init := shares[..n - 1];
    assert forall i :: 0 <= i < |init| ==> init[i] == shares[i];
    SumBounds(init, DrawBound(d));
  }

  /** `d_i_creator(d, n)`: draws n - 1 shares from [0, divide(d, 10)), then
      subtracts each from `d` to obtain the last share.  Every draw needs a
      positive bound, so when there is anything to draw the secret must be
      at least 10. */
  method DiCreator(d: int, n: int) returns (shares: seq<int>)
    requires n <= 1 || 0 < DrawBound(d)
    ensures IsAdditiveSplit(d, n, shares)
    ensures Sum(shares) == d
  {
    var dI: seq<int> := [];
    var i := 0;
    while i < n - 1
      invariant 0 <= i <= (if n <= 1 then 0 else n - 1)
      invariant |dI| == i
      invariant forall k :: 0 <= k < i ==> 0 <= dI[k] < DrawBound(d)
    {
      var r := RandomInt(DrawBound(d));
      dI := dI + [r];
      i := i + 1;
    }
    var rest := d;
    var k := 0;
    while k < |dI|
      invariant 0 <= k <= |dI|
      invariant rest == d - Sum(dI[..k])
    {
      assert dI[..k + 1][..k] == dI[..k];
      rest := Subtract(rest, dI[k]);
      k := k + 1;
    }
    assert dI[..|dI|] == dI;
    shares := dI + [rest];
    assert shares[..|shares| - 1] == dI;
    SplitSumsToSecret(d, n, shares);
  }
}
