# Threshold-RSA helper layer

This project models the integer-arithmetic and secret-splitting helpers of
the threshold-RSA implementation (`helpers.py`). The distributed protocol
uses these helpers to work with shared secrets:

- `divide` is gmpy2's `t_div`, a quotient truncated toward zero.
- `subtract` is plain big-integer subtraction.
- `mod` reduces a value, for a positive modulus, to its non-negative
  residue. It takes gmpy2's
  `t_mod`, whose sign follows the dividend, and adds the modulus when that
  result is negative.
- `d_i_creator(d, n)` splits a secret exponent `d` additively. It draws
  `n - 1` random shares from `[0, divide(d, 10))`. It then subtracts each
  share from `d` in a loop, and the result is the last share, so all shares
  add up to `d`.

Everything is in one module, `Helpers` (`helpers.dfy`):

- gmpy2 integers become Dafny's unbounded `int`.
- Dafny's `/` and `%` are Euclidean, so truncated division is written out
  (`Divide`, `TMod`).
- The random draw `get_random_int(n)` is modelled only by its range
  contract. `RandomInt` may return any value in `[0, n)`.
- `d_i_creator` becomes the method `DiCreator`. It has the source's two
  loops, and its result is specified by the predicate `IsAdditiveSplit`.
  The properties of that predicate are proved as lemmas.

Division by zero makes gmpy2 raise `ZeroDivisionError`. Here it is a
precondition (`y != 0`, `m != 0`). Separately, the model requires a positive
draw bound, so `DiCreator` requires `d >= 10` whenever it has shares to draw
(`n >= 2`). For a zero bound the underlying library divides by zero. For a
negative bound its behaviour is outside the `[0, bound)` range contract used
for `get_random_int`, and is not modelled.

## Model

| member | source | states |
|---|---|---|
| `Helpers.Divide` | helpers.py:44-48 | the remainder `x - q*y` is smaller than `y` in magnitude and never has the opposite sign of `x`, so the quotient is truncated toward zero |
| `Helpers.DivideUnique` | helpers.py:47-48 | any quotient whose remainder has those two properties equals `Divide(x, y)`, so the contract determines the result |
| `Helpers.DivideIsFloorOnNaturals` | helpers.py:47-48 | for `x >= 0` and `y > 0`, truncated division equals floor division |
| `Helpers.DivideOfNegative` | helpers.py:47-48 | for `x < 0` and `y > 0`, the quotient rounds toward zero: `Divide(x, y) == -((-x) / y)` |
| `Helpers.TMod` | helpers.py:61 | gmpy2's `t_mod`: the remainder is smaller than `m` in magnitude, has the sign of `x`, and differs from `x` by `Divide(x, m) * m` |
| `Helpers.Mod` | helpers.py:57-65 | the result is always congruent to `x` modulo `m`, and for `m > 0` it lies in `[0, m)` |
| `Helpers.ModUnique` | helpers.py:60-65 | for `m > 0`, `Mod(x, m)` is the only value in `[0, m)` congruent to `x` |
| `Helpers.ModIsEuclidean` | helpers.py:60-65 | for `m > 0`, `Mod(x, m)` equals the Euclidean (Python `%`) remainder `x % m` for every `x`, negative ones included |
| `Helpers.ModOfResidue` | helpers.py:61-65 | for `0 <= x < m`, `Mod(x, m) == x` |
| `Helpers.ModIdempotent` | helpers.py:60-65 | for `m > 0`, reducing twice gives the same result as reducing once |
| `Helpers.NonNegativeNeedsNoAdjustment` | helpers.py:61-64 | for `x >= 0`, the truncated remainder is already non-negative, so the adjustment branch is never taken |
| `Helpers.ModWithNegativeModulus` | helpers.py:60-65 | for `m < 0`, the result lies in `(2m, m)` or in `[0, -m)`, never in `[m, 0)`; for negative `x` it is either 0 or below `m`, so it is not normalised |
| `Helpers.Subtract` | helpers.py:50-54 | subtraction is the inverse of addition: `Subtract(x, y) + y == x` |
| `Helpers.RandomInt` | helpers.py:24-29 | for a positive bound `n`, the drawn value lies in `[0, n)` |
| `Helpers.DrawBound` | helpers.py:72 | the bound `divide(d, 10)` given to each draw is positive exactly when `d >= 10` |
| `Helpers.SplitSumsToSecret` | helpers.py:67-78 | the shares of every additive split of `d` sum exactly to `d` |
| `Helpers.SplitOfOne` | helpers.py:68-78 | for `n <= 1`, the split is the single share `[d]` |
| `Helpers.SplitLastShareRange` | helpers.py:71-77 | for `n >= 2`, the last share lies between `d - (n-1)*(divide(d,10) - 1)` and `d` |
| `Helpers.DiCreator` | helpers.py:67-78 | returns `max(n, 1)` shares. The first `n-1` lie in `[0, divide(d, 10))`. The last is `d` minus the sum of the others, because the subtraction loop keeps the running value equal to `d` minus the shares already processed. All shares sum to `d` |

## Left out

- `get_random_prime` and `get_random_safe_prime` (helpers.py:12-22) are left out. They depend on Python's `random` and on `gmpy2.is_prime`. `get_random_prime`'s loop ends because primes exist above any start point. `get_random_safe_prime`'s loop ends only if a safe prime lies above the start, which is conjectured but not proven. Also, the promised range `[start, end)` does not hold, since the search can step past `end`.
- RandomInt: only the range of `get_random_int` is modelled (helpers.py:24-29). The uniform distribution, the seeding through `random.randint(0, 2**30)` and `gmpy2.random_state` are not modelled.
- `powmod` and `multiply` (helpers.py:34-41) are one-line gmpy2 wrappers. They are not used by the modelled helpers, so they are not modelled.
- DiCreator: the model requires a positive draw bound (`d >= 10` when `n >= 2`). For a zero bound (`-9 <= d <= 9`) the underlying library divides by zero. For a negative bound (`d <= -10`) its behaviour is outside the `[0, bound)` range contract used for `get_random_int`, and is not modelled.
- Divide, Mod: division by zero raises `ZeroDivisionError` in gmpy2. Here it is a precondition.
- `PresigningData`, `BGWData` and `PQData` (helpers.py:88-138) are left out. They only hold fields and have no operations. `BGWData.__init__` also lacks its `self` parameter, so it cannot be constructed.
- The BGW multiplication, distributed sieving, presigning, threshold signing and quorum bookkeeping are left out. `thresholdRSA` is not part of this model, and these protocols exchange messages between concurrent parties.
- tests.py is left out. It is a print-only harness over `Network` from `thresholdRSA` and makes no checkable assertions.
