/** The arithmetic of JavaScript numbers that the engine relies on, restricted to integers. */
module JsArith {

  function Abs(a: int): nat
  {
    if a < 0 then -a else a
  }

  /** JavaScript's `%`: the remainder of a division that truncates toward zero,
      so the result has the sign of the dividend (unlike Dafny's `%`). */
  function JsRem(a: int, b: int): (r: int)
    requires b != 0
    ensures Abs(r) < Abs(b)
    ensures a >= 0 ==> r >= 0
    ensures a <= 0 ==> r <= 0
  {
    if a >= 0 then a % Abs(b) else -((-a) % Abs(b))
  }

  /** The wrap used for toroidal neighbours and placements:
      `(n % size + size) % size` in JavaScript. */
  function Wrap(n: int, size: int): int
    requires size != 0
  {
    JsRem(JsRem(n, size) + size, size)
  }

  /** For a positive size the wrap is the mathematical residue of `n`, whatever the sign of `n`:
      in particular `-1` wraps to `size - 1` and `size` wraps to `0`. */
  lemma WrapIsResidue(n: int, size: int)
    requires size > 0
    ensures Wrap(n, size) == n % size
    ensures 0 <= Wrap(n, size) < size
  {
    if n >= 0 {
      var r := n % size;
      assert JsRem(n, size) == r;
      ResidueUnique(r + size, 1, r, size);
    } else {
      var s := (-n) % size;
      var q := (-n) / size;
      assert -n == q * size + s;
      assert JsRem(n, size) == -s;
      if s == 0 {
        ResidueUnique(n, -q, 0, size);
        ResidueUnique(size, 1, 0, size);
      } else {
        ResidueUnique(n, -q - 1, size - s, size);
        ResidueUnique(size - s, 0, size - s, size);
      }
    }
  }

  /** Euclidean residues are unique: any decomposition `a == k * size + r` with `0 <= r < size`
      gives Dafny's `%`. */
  lemma ResidueUnique(a: int, k: int, r: int, size: int)
    requires size > 0 && 0 <= r < size && a == k * size + r
    ensures a % size == r
  {
    var q, m := a / size, a % size;
    assert a == q * size + m;
    assert (k - q) * size == m - r;
    if k - q >= 1 {
      MulAtLeast(k - q, size);
    } else if k - q <= -1 {
      MulAtLeast(q - k, size);
    }
  }

  lemma MulAtLeast(a: int, b: int)
    requires a >= 1 && b > 0
    ensures a * b >= b
  {
    assert a * b == (a - 1) * b + b;
    if a > 1 {
      MulAtLeast(a - 1, b);
    }
  }

  /** Wrapping is the identity on `[0, size)` ... */
  lemma WrapInRange(n: int, size: int)
    requires 0 <= n < size
    ensures Wrap(n, size) == n
  {
    WrapIsResidue(n, size);
    ResidueUnique(n, 0, n, size);
  }

  /** ... and adding an offset to an already wrapped coordinate wraps to the same cell
      as adding it to the original one. */
  lemma WrapShift(n: int, d: int, size: int)
    requires size > 0
    ensures Wrap(Wrap(n, size) + d, size) == Wrap(n + d, size)
  {
    WrapIsResidue(n, size);
    WrapIsResidue(n + d, size);
    WrapIsResidue(n % size + d, size);
    ResidueShift(n, d, size);
  }

  lemma ResidueShift(n: int, d: int, size: int)
    requires size > 0
    ensures (n % size + d) % size == (n + d) % size
  {
    var q := n / size;
    var a := n % size + d;
    var k, r := a / size, a % size;
    assert n == q * size + n % size;
    assert a == k * size + r;
    assert k * size + q * size == (k + q) * size;
    ResidueUnique(n + d, k + q, r, size);
  }
  /** The single wrap of the main thread's placements: `(n + size) % size` in JavaScript. */
  function ShiftWrap(n: int, size: int): int
    requires size != 0
  {
    JsRem(n + size, size)
  }

  /** From `-size` upwards the single wrap is the residue of `n`; below that it is the residue
      shifted down by `size`, hence negative, unless the residue is 0. */
  lemma ShiftWrapResidue(n: int, size: int)
    requires size > 0
    ensures n >= -size ==> ShiftWrap(n, size) == n % size
    ensures n < -size ==> ShiftWrap(n, size) == (if n % size == 0 then 0 else n % size - size)
  {
    if n >= -size {
      var r := (n + size) % size;
      var k := (n + size) / size;
      assert n + size == k * size + r;
      assert JsRem(n + size, size) == r;
      ResidueUnique(n, k - 1, r, size);
    } else {
      var m := -(n + size);
      var q, s := m / size, m % size;
      assert m == q * size + s;
      assert JsRem(n + size, size) == -s;
      if s == 0 {
        ResidueUnique(n, -q - 1, 0, size);
      } else {
        ResidueUnique(n, -q - 2, size - s, size);
      }
    }
  }
}
