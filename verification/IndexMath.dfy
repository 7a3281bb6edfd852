/** Facts about quotients and remainders that the ring buffers share. */
module IndexMath {

  lemma MultipleGrows(z: int, d: int)
    requires d > 0
    ensures z >= 1 ==> z * d >= d
    ensures z <= -1 ==> z * d <= -d
  {
    if z >= 1 {
      assert z * d == (z - 1) * d + d;
      assert (z - 1) * d >= 0;
    } else if z <= -1 {
      assert z * d == (z + 1) * d - d;
      assert (z + 1) * d <= 0;
    }
  }

  lemma MulMono(a: nat, b: nat, d: nat)
    requires a <= b
    ensures a * d <= b * d
  {
    assert b * d == a * d + (b - a) * d;
  }

  lemma SmallMultiple(z: int, d: int)
    requires d > 0 && -d < z * d < d
    ensures z == 0
  {
    MultipleGrows(z, d);
  }

  /** A quotient and remainder are what they look like. */
  lemma DivModUnique(n: int, d: int, q: int, r: int)
    requires d > 0 && n == q * d + r && 0 <= r < d
    ensures n / d == q && n % d == r
  {
    var q0, r0 := n / d, n % d;
    assert n == q0 * d + r0 && 0 <= r0 < d;
    assert (q - q0) * d == q * d - q0 * d;
    SmallMultiple(q - q0, d);
  }

  /** One lap further, the same slot. */
  lemma ModLap(n: int, size: int)
    requires size > 0
    ensures (n + size) % size == n % size
    ensures (n + size) / size == n / size + 1
  {
    assert n == (n / size) * size + n % size;
    assert (n / size + 1) * size == (n / size) * size + size;
    DivModUnique(n + size, size, n / size + 1, n % size);
  }

  /** Indices less than one lap apart lie in different slots. */
  lemma SlotsDiffer(a: int, b: int, size: int)
    requires size > 0 && a < b < a + size
    ensures a % size != b % size
  {
    var qa, qb := a / size, b / size;
    assert a == qa * size + a % size && b == qb * size + b % size;
    assert (qb - qa) * size == qb * size - qa * size;
    if a % size == b % size {
      SmallMultiple(qb - qa, size);
    }
  }

  /** A counter kept modulo a multiple of the ring size names the same slots. */
  lemma ModMod(n: int, size: int, k: int)
    requires size > 0 && k > 0
    ensures size * k > 0
    ensures (n % (size * k)) % size == n % size
    ensures n / size == n / (size * k) * k + (n % (size * k)) / size
  {
    assert size * k > 0;
    var m := size * k;
    var w, c := n % m, n / m;
    assert n == c * m + w;
    assert c * m == (c * k) * size;
    assert w == (w / size) * size + w % size;
    assert n == (c * k + w / size) * size + w % size;
    DivModUnique(n, size, c * k + w / size, w % size);
  }

  // ---------------------------------------------------------------------------
  // Ring positions
  // ---------------------------------------------------------------------------

  /** The slot of index `n` in a ring of `size` slots. */
  function Pos(n: nat, size: nat): (r: nat)
    requires size > 0
    ensures r < size
  {
    if n < size then n else Pos(n - size, size)
  }

  /** Whether the lap of index `n` is an odd one. */
  function Parity(n: nat, size: nat): (b: nat)
    requires size > 0
    ensures b < 2
  {
    if n < size then 0 else 1 - Parity(n - size, size)
  }

  /** How many steps of `size` fit into `n`. */
  function Laps(n: nat, size: nat): nat
    requires size > 0
  {
    if n < size then 0 else 1 + Laps(n - size, size)
  }

  lemma {:induction false} LapsIsDiv(n: nat, size: nat)
    requires size > 0
    ensures Laps(n, size) == n / size
  {
    if n >= size {
      LapsIsDiv(n - size, size);
      ModLap(n - size, size);
    } else {
      DivModUnique(n, size, 0, n);
    }
  }

  /** For a power-of-two size: masking with `size - 1`, and testing the bit `size`. */
  lemma {:induction false} PosIsMod(n: nat, size: nat)
    requires size > 0
    ensures Pos(n, size) == n % size
    ensures Parity(n, size) == n / size % 2
  {
    if n >= size {
      PosIsMod(n - size, size);
      ModLap(n - size, size);
    } else {
      DivModUnique(n, size, 0, n);
    }
  }

  lemma {:induction false} PosDiffer(a: nat, b: nat, size: nat)
    requires size > 0 && a < b < a + size
    ensures Pos(a, size) != Pos(b, size)
  {
    if a >= size {
      PosDiffer(a - size, b - size, size);
    } else if b >= size {
      assert Pos(b, size) == b - size;
    }
  }

  /** Neighbouring indices lie in neighbouring slots until the end of the ring. */
  lemma {:induction false} PosAdd(n: nat, k: nat, size: nat)
    requires size > 0 && Pos(n, size) + k < size
    ensures Pos(n + k, size) == Pos(n, size) + k
  {
    if n >= size { PosAdd(n - size, k, size); }
  }
}
