/** Allocation requests: sizes and power-of-two alignments. */
module Layouts {
  const ISIZE_MAX: nat := 0x7FFF_FFFF_FFFF_FFFF

  predicate IsPow2(n: nat) {
    n == 1 || (n > 1 && n % 2 == 0 && IsPow2(n / 2))
  }

  datatype Layout = Layout(size: nat, align: nat) {
    /** What core::alloc::Layout guarantees. */
    predicate Valid() {
      IsPow2(align) && AlignUp(size, align) <= ISIZE_MAX
    }
  }

  /** The least multiple of align that is not below addr. */
  function AlignUp(addr: nat, align: nat): (r: nat)
    requires align > 0
    ensures r % align == 0 && addr <= r < addr + align
  {
    RoundUp(addr + align - 1, align);
    (addr + align - 1) / align * align
  }

  lemma RoundUp(a: nat, align: nat)
    requires align > 0
    ensures a / align * align % align == 0 && a - align < a / align * align <= a
  {
    var q := a / align;
    assert a == q * align + a % align;
    MultipleOf(q, align);
  }

  lemma MultipleOf(q: nat, n: nat)
    requires n > 0
    ensures q * n % n == 0
  {
    var x := q * n;
    var d, r := x / n, x % n;
    assert x == d * n + r;
    assert (q - d) * n == r by { assert (q - d) * n == q * n - d * n; }
    SmallMultiple(q - d, n);
  }

  lemma SmallMultiple(k: int, n: nat)
    requires n > 0 && 0 <= k * n < n
    ensures k == 0
  {}

  /** Of two powers of two the smaller divides the larger. */
  lemma {:induction false} Pow2Divides(a: nat, b: nat)
    requires IsPow2(a) && IsPow2(b) && a <= b
    ensures b % a == 0
  {
    if a > 1 {
      Pow2Divides(a / 2, b / 2);
      var k := b / 2 / (a / 2);
      assert b / 2 == k * (a / 2);
      assert b == k * a by { assert k * a == 2 * (k * (a / 2)); }
      MultipleOf(k, a);
    }
  }

  lemma MultipleTransitive(p: nat, b: nat, a: nat)
    requires a > 0 && b > 0 && p % b == 0 && b % a == 0
    ensures p % a == 0
  {
    var q, k := p / b, b / a;
    assert p == q * b && b == k * a;
    assert p == (q * k) * a by { assert q * (k * a) == (q * k) * a; }
    MultipleOf(q * k, a);
  }

  lemma AlignUpLeast(addr: nat, align: nat, m: nat)
    requires align > 0 && m % align == 0 && addr <= m
    ensures AlignUp(addr, align) <= m
  {
    var r := AlignUp(addr, align);
    var k, j := r / align, m / align;
    assert r == k * align && m == j * align;
    assert (j - k) * align == m - r by { assert (j - k) * align == j * align - k * align; }
    if m < r {
      assert -((j - k) * align) == (k - j) * align by { assert (k - j) * align == k * align - j * align; }
      SmallMultiple(k - j, align);
    }
  }
}
