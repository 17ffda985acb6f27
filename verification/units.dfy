/** The byte-unit helpers: multiplications by 2^10, 2^20, 2^30 and 2^40 in
    `size_t`, a 64-bit unsigned type, so a product too large for it wraps
    modulo 2^64 without any check. The `hinder` and `hinder::misc` functions
    and the `_MiB`, `_GiB`, `_TiB` literal operators all compute these same
    products. */
module Units {

  const SizeMax := 0x1_0000_0000_0000_0000

  type SizeT = n: int | 0 <= n < 0x1_0000_0000_0000_0000

  /** Unsigned 64-bit arithmetic: the value modulo 2^64. */
  function Wrap(x: nat): SizeT
  {
    x % SizeMax
  }

  /** `v * 1024`: exact below 2^54, otherwise only the low 54 bits of `v` count. */
  function KiB(v: SizeT): (r: SizeT)
    ensures r == 0x400 * (v % 0x40_0000_0000_0000)
    ensures v < 0x40_0000_0000_0000 ==> r == v * 0x400
  {
    ScaledMod(v, 0x400, 0x40_0000_0000_0000);
    Wrap(v * 1024)
  }

  /** `v * 1048576`: exact below 2^44, otherwise only the low 44 bits of `v` count. */
  function MiB(v: SizeT): (r: SizeT)
    ensures r == 0x10_0000 * (v % 0x1000_0000_0000)
    ensures v < 0x1000_0000_0000 ==> r == v * 0x10_0000
  {
    ScaledMod(v, 0x10_0000, 0x1000_0000_0000);
    Wrap(v * 1048576)
  }

  /** `v * 1073741824`: exact below 2^34, otherwise only the low 34 bits of `v` count. */
  function GiB(v: SizeT): (r: SizeT)
    ensures r == 0x4000_0000 * (v % 0x4_0000_0000)
    ensures v < 0x4_0000_0000 ==> r == v * 0x4000_0000
  {
    ScaledMod(v, 0x4000_0000, 0x4_0000_0000);
    Wrap(v * 1073741824)
  }

  /** `v * 1099511627776`: exact below 2^24, otherwise only the low 24 bits of `v` count. */
  function TiB(v: SizeT): (r: SizeT)
    ensures r == 0x100_0000_0000 * (v % 0x100_0000)
    ensures v < 0x100_0000 ==> r == v * 0x100_0000_0000
  {
    ScaledMod(v, 0x100_0000_0000, 0x100_0000);
    Wrap(v * 1099511627776)
  }

  /** Each unit is 1024 of the one below it, also once the products wrap. */
  lemma UnitSteps(v: SizeT)
    ensures KiB(v) == Wrap(v * 1024)
    ensures MiB(v) == Wrap(KiB(v) * 1024)
    ensures GiB(v) == Wrap(MiB(v) * 1024)
    ensures TiB(v) == Wrap(GiB(v) * 1024)
  {
    StepUp(v, 0x400, 0x40_0000_0000_0000, 0x1000_0000_0000);
    StepUp(v, 0x10_0000, 0x1000_0000_0000, 0x4_0000_0000);
    StepUp(v, 0x4000_0000, 0x4_0000_0000, 0x100_0000);
  }

  /** Multiplying a wrapped product `k * (v % m)` by 1024 again, where
      k * m = 2^64 = 1024 * k * m', wraps to `1024 * k * (v % m')`. */
  lemma StepUp(v: nat, k: nat, m: nat, m': nat)
    requires k > 0 && m' > 0 && m == 1024 * m' && k * m == SizeMax
    ensures Wrap(k * (v % m) * 1024) == 1024 * k * (v % m')
  {
    ModMod(v, m', 1024);
    assert k * (v % m) * 1024 == (1024 * k) * (v % m);
    assert SizeMax == (1024 * k) * m';
    ScaledMod(v % m, 1024 * k, m');
  }

  /** The unit sizes for one and for four blocks. */
  lemma SmallBlocks()
    ensures KiB(1) == 1024 && MiB(1) == 1024 * 1024 && GiB(1) == 1024 * 1024 * 1024 && TiB(1) == 1024 * 1024 * 1024 * 1024
    ensures KiB(4) == 4 * 1024 && MiB(4) == KiB(4) * 1024 && GiB(4) == MiB(4) * 1024 && TiB(4) == GiB(4) * 1024
  {
  }

  /** No overflow check: 2^24 tebibytes is 2^64 bytes, which wraps to zero,
      and so does 2^54 kibibytes. */
  lemma WrapsToZero()
    ensures TiB(0x100_0000) == 0
    ensures KiB(0x40_0000_0000_0000) == 0
  {
  }

  lemma {:induction false} MulAtLeast(d: int, n: int)
    requires d >= 1 && n > 0
    ensures d * n >= n
    decreases d
  {
    if d > 1 {
      MulAtLeast(d - 1, n);
      assert d * n == (d - 1) * n + n;
    }
  }

  /** Euclidean division has one quotient and one remainder. */
  lemma ModUnique(a: int, n: int, q: int, r: int)
    requires n > 0 && 0 <= r < n && a == q * n + r
    ensures a % n == r && a / n == q
  {
    var q' := a / n;
    var r' := a % n;
    assert a == q' * n + r';
    assert (q - q') * n == r' - r;
    if q > q' {
      MulAtLeast(q - q', n);
    } else if q < q' {
      MulAtLeast(q' - q, n);
    }
  }

  lemma ScaledMod(x: nat, k: nat, m: nat)
    requires k > 0 && m > 0
    ensures (k * x) % (k * m) == k * (x % m)
  {
    var q := x / m;
    var r := x % m;
    assert x == q * m + r;
    assert k * x == q * (k * m) + k * r;
    assert k * r < k * m;
    ModUnique(k * x, k * m, q, k * r);
  }

  lemma ModMod(x: nat, a: nat, b: nat)
    requires a > 0 && b > 0
    ensures (x % (b * a)) % a == x % a
  {
    var q := x / (b * a);
    var r := x % (b * a);
    var s := r / a;
    var t := r % a;
    assert x == q * (b * a) + r;
    assert r == s * a + t;
    assert x == (q * b + s) * a + t;
    ModUnique(x, a, q * b + s, t);
  }
}
