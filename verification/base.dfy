/** Small shared building blocks: an optional value and integer helpers. */
module Base {

  /** An optional value, as Rust's `Option<T>`. */
  datatype Option<+T> = None | Some(value: T)

  /** A value or an error message, as Rust's `Result<T, String>`. */
  datatype Result<+T> = Ok(value: T) | Err(error: string)

  /** `a.min(b)` on unsigned integers. */
  function Min(a: nat, b: nat): nat
  {
    if a <= b then a else b
  }

  /** `a.max(b)` on unsigned integers. */
  function Max(a: nat, b: nat): nat
  {
    if a >= b then a else b
  }

  /** `a.saturating_sub(b)` on unsigned integers. */
  function SatSub(a: nat, b: nat): nat
  {
    if a >= b then a - b else 0
  }

  /** A row-major offset lies inside the w x h block. */
  lemma RowMajorBound(x: nat, y: nat, w: nat, h: nat)
    ensures x < w && y < h ==> y * w + x < w * h
  {
    if x < w && y < h {
      assert y * w <= (h - 1) * w;
    }
  }

  /** Integer division and remainder are determined by a quotient/remainder split. */
  lemma DivModUnique(a: int, b: int, q: int, r: int)
    requires 0 <= r < b && a == q * b + r
    ensures a / b == q && a % b == r
  {
    var q', r' := a / b, a % b;
    assert (q' - q) * b == r - r' by {
      assert a == q' * b + r';
    }
    MulSign(q' - q, b);
  }

  /** A nonzero multiple of `b` is at least `b` away from zero. */
  lemma MulSign(k: int, b: int)
    requires b >= 0
    ensures k >= 1 ==> k * b >= b
    ensures k <= -1 ==> k * b <= -b
  {
    if k >= 1 {
      assert k * b == (k - 1) * b + b;
    }
    if k <= -1 {
      assert k * b == (k + 1) * b - b;
    }
  }

  /** Multiplication by a non-negative factor is monotone. */
  lemma MulMono(a: int, b: int, c: int)
    requires a <= b && c >= 0
    ensures a * c <= b * c
  {
    MulSign(b - a, c);
  }

  /** An offset below `w * h` lies in one of the first `h` rows. */
  lemma DivBound(i: nat, w: nat, h: nat)
    requires i < w * h
    ensures w > 0 && i / w < h
  {
    var q := i / w;
    assert i == q * w + i % w;
    if h <= q {
      MulMono(h, q, w);
    }
  }
}
