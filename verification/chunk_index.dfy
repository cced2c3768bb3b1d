/**
  The chunk index of a chunked model: a chunk coordinate (i, j, k) is turned
  into one `size_t` hash in row-major order, x slowest and z fastest, with
  strides `amount.y * amount.z`, `amount.z` and 1.

  `HashValue` computes what the C++ expression computes: every `int` operand
  is converted to `size_t` and every product and sum wraps modulo 2^64.
  `Linear` is the plain mathematical formula; the lemmas below relate the two
  and state the index's bounds, its inverse `Decode`, injectivity and order.
 */
module ChunkIndex {

  /** 2^64: `size_t` arithmetic is carried out modulo this number. */
  const WORD: int := 0x1_0000_0000_0000_0000

  /**
    The number of chunks along x, y and z (`BaseVector<size_t>`). The bound
    2^64 on each amount is not needed by any property below: wherever it
    matters, `Fits` bounds the product of all three.
   */
  datatype Amount = Amount(x: nat, y: nat, z: nat)

  /** A chunk coordinate, as recovered by `Decode`. */
  datatype Index = Index(i: int, j: int, k: int)

  /** Reduction modulo `m`, the arithmetic of an unsigned machine word. */
  function Mod(v: int, m: int): int
    requires m > 0
  {
    v % m
  }

  /** Conversion of an integer to `size_t`, i.e. reduction modulo 2^64. */
  function Wrap(v: int): int
  {
    Mod(v, WORD)
  }

  /**
    The hash of chunk (i, j, k) as the C++ code evaluates
    `i * amount.y * amount.z + j * amount.z + k` with `int` coordinates and
    `size_t` amounts: each operand is converted to `size_t` and each product
    and sum wraps. Note that `amount.x` takes no part.
   */
  function HashValue(a: Amount, i: int, j: int, k: int): (h: int)
    ensures 0 <= h < WORD
  {
    Wrap(Wrap(Wrap(Wrap(Wrap(i) * a.y) * a.z) + Wrap(Wrap(j) * a.z)) + Wrap(k))
  }

  /** The row-major index over the unbounded integers. */
  function Linear(a: Amount, i: int, j: int, k: int): int
  {
    i * a.y * a.z + j * a.z + k
  }

  /** The number of chunks in the grid box. */
  function Volume(a: Amount): nat
  {
    a.x * a.y * a.z
  }

  /** The grid box holds (i, j, k). */
  predicate InBox(a: Amount, i: int, j: int, k: int)
  {
    0 <= i < a.x && 0 <= j < a.y && 0 <= k < a.z
  }

  /** Every chunk of the box has a hash that `size_t` can hold without wrapping. */
  predicate Fits(a: Amount)
  {
    Volume(a) <= WORD
  }

  /** Lexicographic order on coordinates, x first. */
  predicate LexLess(i1: int, j1: int, k1: int, i2: int, j2: int, k2: int)
  {
    i1 < i2 || (i1 == i2 && (j1 < j2 || (j1 == j2 && k1 < k2)))
  }

  /**
    The inverse of the row-major index: `i = h / (Y*Z)`, `j = (h / Z) % Y`,
    `k = h % Z`. Every hash below the volume decodes to a coordinate of the box.
   */
  function Decode(a: Amount, h: int): (d: Index)
    requires a.y > 0 && a.z > 0
    ensures 0 <= h < Volume(a) ==> InBox(a, d.i, d.j, d.k)
  {
    var d := Index(h / (a.y * a.z), (h / a.z) % a.y, h % a.z);
    if 0 <= h < Volume(a) then
      DecodeInBox(a, h);
      d
    else
      d
  }

  // ---------------------------------------------------------------------
  // Arithmetic helpers

  /** Euclidean division is determined by quotient and remainder. */
  lemma DivModUnique(x: int, m: int, q: int, r: int)
    requires m > 0 && 0 <= r < m && x == q * m + r
    ensures x / m == q && x % m == r
  {
    var d := x / m - q;
    assert m * d == r - x % m;
    if d > 0 {
      MulLe(1, d, m);
      assert false;
    } else if d < 0 {
      MulLe(1, -d, m);
      assert false;
    }
  }

  /** Adding a multiple of the modulus does not change the reduction. */
  lemma ModShift(x: int, q: int, m: int)
    requires m > 0
    ensures Mod(x + q * m, m) == Mod(x, m)
  {
    DivModUnique(x + q * m, m, x / m + q, x % m);
  }

  lemma ModAdd(u: int, v: int, m: int)
    requires m > 0
    ensures Mod(Mod(u, m) + Mod(v, m), m) == Mod(u + v, m)
  {
    assert u + v == Mod(u, m) + Mod(v, m) + (u / m + v / m) * m;
    ModShift(Mod(u, m) + Mod(v, m), u / m + v / m, m);
  }

  lemma ModMul(u: int, v: int, m: int)
    requires m > 0
    ensures Mod(Mod(u, m) * v, m) == Mod(u * v, m)
  {
    var q := u / m;
    assert u == q * m + Mod(u, m);
    assert u * v == Mod(u, m) * v + (q * v) * m;
    ModShift(Mod(u, m) * v, q * v, m);
  }

  /** The wrapped evaluation order of the C++ expression, for any modulus. */
  lemma ModFormula(i: int, j: int, k: int, y: int, z: int, m: int)
    requires m > 0
    ensures Mod(Mod(Mod(Mod(Mod(i, m) * y, m) * z, m) + Mod(Mod(j, m) * z, m), m) + Mod(k, m), m)
         == Mod(i * y * z + j * z + k, m)
  {
    var p := i * y;
    var b := p * z;
    var c := j * z;
    ModMul(i, y, m);
    ModMul(p, z, m);
    ModMul(j, z, m);
    ModAdd(b, c, m);
    ModAdd(b + c, k, m);
  }

  lemma MulLe(a: int, b: int, c: int)
    requires 0 <= a <= b && c >= 0
    ensures a * c <= b * c
  {
  }

  /** A row-major index splits into a multiple of the slab size and an offset inside the slab. */
  lemma RowMajorSplit(i: int, j: int, k: int, y: int, z: int)
    requires y > 0 && z > 0 && 0 <= j < y && 0 <= k < z
    ensures 0 <= j * z + k < y * z
    ensures i * y * z + j * z + k == i * (y * z) + (j * z + k)
    ensures i * y * z + j * z + k == (i * y + j) * z + k
  {
    MulLe(j, y - 1, z);
  }

  /** Dividing by z and then by y is dividing by y * z. */
  lemma SplitDiv(y: int, z: int, h: int)
    requires y > 0 && z > 0 && h >= 0
    ensures (h / z) / y == h / (y * z)
    ensures h == ((h / z) / y) * (y * z) + ((h / z) % y) * z + h % z
    ensures h >= (h / (y * z)) * (y * z)
  {
    var q := h / z;
    var j := q % y;
    var k := h % z;
    assert h == q * z + k;
    assert q == (q / y) * y + j;
    RowMajorSplit(q / y, j, k, y, z);
    DivModUnique(h, y * z, q / y, j * z + k);
  }

  /** Every hash below the volume decodes to a coordinate of the box. */
  lemma DecodeInBox(a: Amount, h: int)
    requires a.y > 0 && a.z > 0 && 0 <= h < Volume(a)
    ensures InBox(a, h / (a.y * a.z), (h / a.z) % a.y, h % a.z)
  {
    var yz := a.y * a.z;
    assert a.x * yz == Volume(a);
    DivBound(h, yz, a.x);
  }

  /** A non-negative number below `x * n` has a quotient by `n` below `x`. */
  lemma DivBound(h: int, n: int, x: int)
    requires n > 0 && 0 <= h < x * n
    ensures 0 <= h / n < x
  {
    var i := h / n;
    assert i * n <= h;
    if i >= x {
      MulLe(x, i, n);
      assert false;
    }
  }

  /** The row-major index of an in-range coordinate decodes back to it. */
  lemma DecodeLinear(i: int, j: int, k: int, y: int, z: int)
    requires y > 0 && z > 0 && 0 <= j < y && 0 <= k < z
    ensures (i * y * z + j * z + k) / (y * z) == i
    ensures ((i * y * z + j * z + k) / z) % y == j
    ensures (i * y * z + j * z + k) % z == k
  {
    var h := i * y * z + j * z + k;
    RowMajorSplit(i, j, k, y, z);
    DivModUnique(h, y * z, i, j * z + k);
    DivModUnique(h, z, i * y + j, k);
    DivModUnique(i * y + j, y, i, j);
  }

  /** The row-major index is strictly monotone in the lexicographic order. */
  lemma LinearOrder(i1: int, j1: int, k1: int, i2: int, j2: int, k2: int, y: int, z: int)
    requires y > 0 && z > 0 && 0 <= i1 && 0 <= i2
    requires 0 <= j1 < y && 0 <= j2 < y && 0 <= k1 < z && 0 <= k2 < z
    requires LexLess(i1, j1, k1, i2, j2, k2)
    ensures i1 * y * z + j1 * z + k1 < i2 * y * z + j2 * z + k2
  {
    RowMajorSplit(i1, j1, k1, y, z);
    RowMajorSplit(i2, j2, k2, y, z);
    if i1 < i2 {
      MulLe(i1 + 1, i2, y * z);
      assert (i1 + 1) * (y * z) == i1 * (y * z) + y * z;
    } else if j1 < j2 {
      MulLe(j1 + 1, j2, z);
      assert (j1 + 1) * z == j1 * z + z;
    }
  }

  // ---------------------------------------------------------------------
  // Properties of the index

  /** The wrapped C++ expression is the row-major formula modulo 2^64, for all `int` inputs. */
  lemma HashValueWraps(a: Amount, i: int, j: int, k: int)
    ensures HashValue(a, i, j, k) == Wrap(Linear(a, i, j, k))
    ensures 0 <= HashValue(a, i, j, k) < WORD
  {
    ModFormula(i, j, k, a.y, a.z, WORD);
  }

  /** Inside the box the row-major index lies in [0, Volume). */
  lemma LinearBound(a: Amount, i: int, j: int, k: int)
    requires InBox(a, i, j, k)
    ensures 0 <= Linear(a, i, j, k) < Volume(a)
  {
    var yz := a.y * a.z;
    RowMajorSplit(i, j, k, a.y, a.z);
    MulLe(i, a.x - 1, yz);
    assert (a.x - 1) * yz + yz == Volume(a);
  }

  /**
    Inside a box whose volume fits in `size_t`, the hash does not wrap: it is
    exactly `i*Y*Z + j*Z + k` and lies in `[0, X*Y*Z)`.
   */
  lemma HashValueInBox(a: Amount, i: int, j: int, k: int)
    requires Fits(a) && InBox(a, i, j, k)
    ensures HashValue(a, i, j, k) == Linear(a, i, j, k)
    ensures 0 <= HashValue(a, i, j, k) < Volume(a)
  {
    HashValueWraps(a, i, j, k);
    LinearBound(a, i, j, k);
  }

  /** Decoding the hash of a coordinate of the box gives the coordinate back. */
  lemma DecodeHash(a: Amount, i: int, j: int, k: int)
    requires Fits(a) && InBox(a, i, j, k)
    ensures Decode(a, HashValue(a, i, j, k)) == Index(i, j, k)
  {
    HashValueInBox(a, i, j, k);
    DecodeLinear(i, j, k, a.y, a.z);
  }

  /** Every hash below the volume is the hash of the coordinate it decodes to. */
  lemma HashDecode(a: Amount, h: int)
    requires Fits(a) && a.y > 0 && a.z > 0 && 0 <= h < Volume(a)
    ensures InBox(a, Decode(a, h).i, Decode(a, h).j, Decode(a, h).k)
    ensures HashValue(a, Decode(a, h).i, Decode(a, h).j, Decode(a, h).k) == h
  {
    var d := Decode(a, h);
    SplitDiv(a.y, a.z, h);
    assert d.i * (a.y * a.z) == d.i * a.y * a.z;
    assert Linear(a, d.i, d.j, d.k) == h;
    HashValueInBox(a, d.i, d.j, d.k);
  }

  /** Two coordinates of the box never share a hash. */
  lemma HashInjective(a: Amount, i1: int, j1: int, k1: int, i2: int, j2: int, k2: int)
    requires Fits(a) && InBox(a, i1, j1, k1) && InBox(a, i2, j2, k2)
    requires HashValue(a, i1, j1, k1) == HashValue(a, i2, j2, k2)
    ensures i1 == i2 && j1 == j2 && k1 == k2
  {
    DecodeHash(a, i1, j1, k1);
    DecodeHash(a, i2, j2, k2);
  }

  /**
    Inside the box the hash is strictly monotone in the lexicographic order of
    coordinates (both directions), and a step along z adds exactly one.
   */
  lemma HashOrder(a: Amount, i1: int, j1: int, k1: int, i2: int, j2: int, k2: int)
    requires Fits(a) && InBox(a, i1, j1, k1) && InBox(a, i2, j2, k2)
    ensures LexLess(i1, j1, k1, i2, j2, k2) <==> HashValue(a, i1, j1, k1) < HashValue(a, i2, j2, k2)
    ensures i1 == i2 && j1 == j2 && k2 == k1 + 1 ==> HashValue(a, i2, j2, k2) == HashValue(a, i1, j1, k1) + 1
  {
    HashValueInBox(a, i1, j1, k1);
    HashValueInBox(a, i2, j2, k2);
    if LexLess(i1, j1, k1, i2, j2, k2) {
      LinearOrder(i1, j1, k1, i2, j2, k2, a.y, a.z);
    } else if LexLess(i2, j2, k2, i1, j1, k1) {
      LinearOrder(i2, j2, k2, i1, j1, k1, a.y, a.z);
    }
  }

  /** The x amount only bounds i; it never enters the hash. */
  lemma HashIgnoresX(a: Amount, b: Amount, i: int, j: int, k: int)
    requires a.y == b.y && a.z == b.z
    ensures HashValue(a, i, j, k) == HashValue(b, i, j, k)
  {
  }
}
