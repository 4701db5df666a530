/** The library calls the filters make whose values the model does not
    compute: `exp`, `sinf`, `cosf`, `rand` and reading the mosaic atlas from
    disk. Each becomes a field of `Env`, and `Sound` states the only facts
    the filters rely on. */
module Externals {
  import opened Wrappers
  import opened Colors

  datatype Env = Env(
    /** `exp(-(i * i) / (2 * sigma * sigma))`, the blur weight of offset i. */
    gauss: (real, int) -> real,
    /** `val - floorf(val)` for `val = sinf(x * 12.9898 + y * 78.233) * 43758.5453`,
        the hash inside `random_in_range`. */
    frac: (int, int) -> real,
    /** `(sinf(x * f) * cosf(y * f * 0.7), cosf(x * f * 0.8) * sinf(y * f * 1.2))`
        with f = 0.05: the glass displacement of pixel (x, y) before it is
        multiplied by the amplitude. */
    wave: (nat, nat) -> (real, real),
    /** The two `rand()` draws made for the crystallize cell at (cx, cy):
        first for x, then for y. */
    draws: (nat, nat) -> (nat, nat),
    /** The bytes of the named file, or nothing when it cannot be opened. */
    files: string -> Option<seq<Byte>>)

  /** What the C library guarantees: `exp` is positive, a fractional part
      lies in [0, 1), and a product of a sine and a cosine lies in [-1, 1]. */
  ghost predicate Sound(env: Env)
  {
    && (forall s: real, i: int :: env.gauss(s, i) > 0.0)
    && (forall x: int, y: int :: 0.0 <= env.frac(x, y) < 1.0)
    && (forall x: nat, y: nat :: -1.0 <= env.wave(x, y).0 <= 1.0 && -1.0 <= env.wave(x, y).1 <= 1.0)
  }

  /** `random_in_range`: `min + frac * (max - min)`, so a value in
      [min, max) when min < max, and min itself when they are equal. */
  function RandomInRange(env: Env, x: int, y: int, lo: real, hi: real): (v: real)
    requires Sound(env)
    ensures lo <= hi ==> lo <= v <= hi
    ensures lo < hi ==> v < hi
    ensures lo == hi ==> v == lo
  {
    var f := env.frac(x, y);
    var d := hi - lo;
    FractionScales(f, d);
    lo + f * d
  }

  /** A fraction in [0, 1) of a non-negative span stays below the span
      unless the span is zero. */
  lemma FractionScales(f: real, d: real)
    requires 0.0 <= f < 1.0
    ensures d >= 0.0 ==> 0.0 <= f * d <= d
    ensures d > 0.0 ==> f * d < d
    ensures d == 0.0 ==> f * d == 0.0
  {
    if d > 0.0 {
      assert f * d < 1.0 * d;
    }
  }
}
