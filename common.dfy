/** Shared value wrappers used by every module of the model. */
module Common {

  /** One channel value of an RGBA pixel buffer (`Uint8ClampedArray`). */
  newtype byte = x: int | 0 <= x < 256

  /** A value that may be absent (JavaScript's `undefined`/`null`). */
  datatype Option<T> = None | Some(value: T)
  {
    function GetOr(default: T): T
    {
      match this
      case None => default
      case Some(v) => v
    }
  }

  function Min(a: int, b: int): int { if a <= b then a else b }

  function Max(a: int, b: int): int { if a >= b then a else b }

  /** `Math.max(lo, Math.min(hi, x))`, the clamp the editors use. */
  function Clamp(x: int, lo: int, hi: int): int { Max(lo, Min(hi, x)) }
}

/** Integer facts about floor division (Dafny's `/` with a positive divisor is `Math.floor`). */
module Arith {

  lemma MulLe(x: int, y: int, b: int)
    requires b > 0 && x <= y
    ensures x * b <= y * b
  {
    assert y * b - x * b == (y - x) * b;
  }

  lemma DivBounds(a: int, b: int)
    requires b > 0
    ensures (a / b) * b <= a < (a / b + 1) * b
  {
  }

  lemma DivMono(a: int, c: int, b: int)
    requires b > 0 && a <= c
    ensures a / b <= c / b
  {
    DivBounds(a, b);
    DivBounds(c, b);
    if a / b > c / b {
      MulLe(c / b + 1, a / b, b);
    }
  }

  lemma DivAdd(a: int, c: int, b: int)
    requires b > 0
    ensures a / b + c / b <= (a + c) / b
  {
    DivBounds(a, b);
    DivBounds(c, b);
    DivBounds(a + c, b);
    assert (a / b + c / b) * b == (a / b) * b + (c / b) * b;
    if a / b + c / b > (a + c) / b {
      MulLe((a + c) / b + 1, a / b + c / b, b);
    }
  }

  /** Row-major indexing: cell (row, col) of a `width`-wide grid lies before cell (row + 1, 0) and inside `width × height`. */
  lemma RowMajor(row: int, col: int, width: int, height: int)
    requires 0 <= row < height && 0 <= col < width
    ensures 0 <= row * width + col < (row + 1) * width <= height * width
    ensures (row + 1) * width == row * width + width
  {
    MulLe(row + 1, height, width);
    assert row * width >= 0 by { MulLe(0, row, width); }
  }

  /** Floor division is determined by quotient and remainder: `(q * b + r) / b == q` for `0 <= r < b`. */
  lemma DivUnique(x: int, b: int, q: int, r: int)
    requires b > 0 && 0 <= r < b && x == q * b + r
    ensures x / b == q
  {
    DivBounds(x, b);
    var d := x / b;
    if d < q {
      MulLe(d + 1, q, b);
    } else if d > q {
      MulLe(q + 1, d, b);
    }
  }

  /** `a * k / k == a` for a positive `k`. */
  lemma MulDivCancel(a: int, k: int)
    requires k > 0
    ensures (a * k) / k == a
  {
    DivBounds(a * k, k);
    if (a * k) / k < a {
      MulLe((a * k) / k + 1, a, k);
    } else if (a * k) / k > a {
      MulLe(a + 1, (a * k) / k, k);
    }
  }
}
