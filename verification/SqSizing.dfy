/** Sizes of a send queue (drivers/libmlx5-1.0.2mlnx1/src/verbs.c). */
module SqSizing {

  import opened IndexMath

  const WRAP32 := 0x1_0000_0000
  const WRAP16 := 0x1_0000
  const BLOCK_BYTES := 64

  // ---------------------------------------------------------------------------
  // Sizing
  // ---------------------------------------------------------------------------

  ghost predicate IsPow2(n: nat) {
    n == 1 || (n > 1 && n % 2 == 0 && IsPow2(n / 2))
  }

  const INT_MAX := 0x7FFF_FFFF
  const ENOMEM := 12

  /** mlx5_round_up_power_of_two: the power of two that is at least `sz` and below twice `sz`,
      or an error when that is not an int. */
  method RoundUpPow2(sz: nat) returns (r: int)
    ensures r < 0 <==> sz > 0x4000_0000
    ensures r < 0 ==> r == -ENOMEM
    ensures r >= 0 ==> IsPow2(r) && sz <= r && (sz > 0 ==> r < 2 * sz)
  {
    r := 1;
    while r < sz
      invariant r > 0 && IsPow2(r) && (r > 1 ==> r < 2 * sz)
    {
      Pow2Double(r);
      r := 2 * r;
    }
    if sz > 0x4000_0000 { NoInt(r); }
    if r > INT_MAX { r := -ENOMEM; }
  }

  lemma NoInt(r: nat)
    requires IsPow2(r) && r > 0x4000_0000
    ensures r > INT_MAX
  {
    LargePow2s();
    NextPow2(0x4000_0000, r);
  }

  /** The next power of two is twice as large. */
  lemma {:induction false} NextPow2(a: nat, b: nat)
    requires IsPow2(a) && IsPow2(b) && a < b
    ensures b >= 2 * a
  {
    if a > 1 { NextPow2(a / 2, b / 2); }
  }

  lemma LargePow2s()
    ensures IsPow2(0x100_0000) && IsPow2(0x4000_0000)
  {
    Wrap16IsPow2();
    Pow2Times16(0x1_0000);
    Pow2Times16(0x10_0000);
    Pow2Times16(0x100_0000);
    Pow2Double(0x1000_0000);
    Pow2Double(0x2000_0000);
  }

  lemma Pow2Times16(n: nat)
    requires IsPow2(n)
    ensures IsPow2(16 * n)
  {
    Pow2Double(n);
    Pow2Double(2 * n);
    Pow2Double(4 * n);
    Pow2Double(8 * n);
  }

  /** A send queue's fixed numbers: ring blocks, the most requests outstanding, the most
      blocks one request takes, the most segments it gathers. */
  datatype Config = Config(wqeCnt: nat, maxPost: nat, maxBlocks: nat, maxGs: nat)

  /** What the rest relies on. Block indices are reported to software in 16 bits. */
  ghost predicate Sized(c: Config) {
    c.wqeCnt > 0 && c.maxBlocks > 0 && c.maxPost * c.maxBlocks <= c.wqeCnt && WRAP16 % c.wqeCnt == 0
  }

  /** A power of two that holds `bytes` and is at most `limit`. */
  ghost predicate RoundsTo(bytes: nat, limit: nat, p: nat) {
    IsPow2(p) && bytes <= p <= limit
  }

  /** mlx5_calc_sq_size, given the bytes `wqeSize` of the largest request, whole blocks, and the
      segments `maxGs` it then holds: it fails exactly when a request is too large for the device,
      the sizes may not fit an int, no power of two of blocks that the device allows is enough, or
      too few segments fit. */
  method CalcSqSize(maxSendWr: nat, wqeSize: nat, maxGs: nat, maxSendSge: nat, maxSqDescSz: nat, maxSendWqebb: nat)
    returns (c: Config, ok: bool)
    requires wqeSize > 0 && wqeSize % BLOCK_BYTES == 0 && maxSendWqebb <= WRAP16
    ensures maxSendWr == 0 ==> ok && c == Config(0, 0, 0, 0)
    ensures maxSendWr > 0 && ok ==>
              Sized(c) && c.maxPost >= maxSendWr && c.maxBlocks == wqeSize / BLOCK_BYTES && c.maxGs == maxGs
    ensures maxSendWr > 0 && ok ==>
              c.wqeCnt < (c.maxPost + 1) * c.maxBlocks && BLOCK_BYTES * c.wqeCnt < 2 * (maxSendWr * wqeSize)
    ensures maxSendWr > 0 ==>
              (ok <==> && wqeSize <= maxSqDescSz && maxSendWr * maxSqDescSz <= INT_MAX && maxGs >= maxSendSge
                       && exists p: nat :: RoundsTo(maxSendWr * wqeSize, BLOCK_BYTES * maxSendWqebb, p))
  {
    c, ok := Config(0, 0, 0, 0), maxSendWr == 0;
    if maxSendWr == 0 || wqeSize > maxSqDescSz { return; }
    QuotientIs(maxSendWr, maxSqDescSz);
    if maxSendWr > INT_MAX / maxSqDescSz { return; }
    var rounded := RoundUpPow2(maxSendWr * wqeSize);
    RoundedIsLeast(maxSendWr * wqeSize, rounded, BLOCK_BYTES * maxSendWqebb);
    if rounded < 0 { return; }
    var wqSize: nat := rounded;
    SizesAgree(maxSendWr, wqeSize, wqSize);
    PostsFill(wqSize, wqeSize / BLOCK_BYTES, wqeSize, wqSize / wqeSize);
    if wqSize / BLOCK_BYTES > maxSendWqebb || maxGs < maxSendSge { return; }
    c := Config(wqSize / BLOCK_BYTES, wqSize / wqeSize, wqeSize / BLOCK_BYTES, maxGs);
    ok := true;
    Wrap16IsPow2();
    Pow2Divides(c.wqeCnt, WRAP16);
  }

  lemma QuotientIs(n: nat, d: nat)
    requires d > 0
    ensures n > INT_MAX / d <==> n * d > INT_MAX
  {
    var q := INT_MAX / d;
    assert q * d <= INT_MAX < (q + 1) * d by { assert (q + 1) * d == q * d + d; }
    if n > q { MulMono(q + 1, n, d); } else { MulMono(n, q, d); }
  }

  /** What RoundUpPow2 answers is within `limit` exactly when any power of two would be. */
  lemma RoundedIsLeast(bytes: nat, rounded: int, limit: nat)
    requires bytes > 1 && limit <= 0x40_0000
    requires rounded < 0 <==> bytes > 0x4000_0000
    requires rounded >= 0 ==> IsPow2(rounded) && bytes <= rounded < 2 * bytes
    ensures (exists p: nat :: RoundsTo(bytes, limit, p)) <==> 0 <= rounded <= limit
  {
    if 0 <= rounded <= limit { assert RoundsTo(bytes, limit, rounded); }
    forall p: nat | RoundsTo(bytes, limit, p) ensures 0 <= rounded <= limit {
      if p < rounded { NextPow2(p, rounded); }
    }
  }

  lemma Pow2Double(n: nat)
    requires IsPow2(n)
    ensures IsPow2(2 * n)
  {
    assert 2 * n / 2 == n;
  }

  lemma Wrap16IsPow2()
    ensures IsPow2(WRAP16)
  {
    assert IsPow2(1);
    Pow2Double(1); Pow2Double(2); Pow2Double(4); Pow2Double(8);
    Pow2Double(16); Pow2Double(32); Pow2Double(64); Pow2Double(128);
    Pow2Double(256); Pow2Double(512); Pow2Double(1024); Pow2Double(2048);
    Pow2Double(4096); Pow2Double(8192); Pow2Double(16384); Pow2Double(32768);
  }

  /** Powers of two divide larger ones, the quotient being one too. */
  lemma {:induction false} Pow2Divides(a: nat, b: nat)
    requires IsPow2(a) && IsPow2(b) && a <= b
    ensures a > 0 && b % a == 0 && IsPow2(b / a)
    decreases a
  {
    if a > 1 {
      Pow2Divides(a / 2, b / 2);
      var h, q := a / 2, (b / 2) / (a / 2);
      assert b / 2 == q * h;
      assert q * a == 2 * (q * h);
      DivModUnique(b, a, q, 0);
    } else {
      DivModUnique(b, 1, b, 0);
    }
  }

  lemma QuotientAtLeast(q: nat, d: nat, n: nat)
    requires d > 0 && q >= n * d
    ensures q / d >= n
  {
    var z := q / d;
    assert q < (z + 1) * d by { assert q == z * d + q % d; assert (z + 1) * d == z * d + d; }
    if z + 1 <= n { MulMono(z + 1, n, d); }
  }

  /** As many requests of `b` blocks as fit in bytes fit in blocks. */
  lemma PostsFit(wqSize: nat, b: nat, wqeSize: nat, p: nat)
    requires wqeSize == BLOCK_BYTES * b && p * wqeSize <= wqSize
    ensures p * b <= wqSize / BLOCK_BYTES
  {
    assert p * wqeSize == p * b * BLOCK_BYTES;
  }

  lemma QuotientFits(n: nat, d: nat)
    requires d > 0
    ensures n / d * d <= n
  {
    assert n == n / d * d + n % d;
  }

  lemma SizesAgree(maxSendWr: nat, wqeSize: nat, wqSize: nat)
    requires maxSendWr > 0 && wqeSize > 0 && wqeSize % BLOCK_BYTES == 0
    requires IsPow2(wqSize) && wqSize >= maxSendWr * wqeSize
    ensures wqSize / wqeSize >= maxSendWr
    ensures (wqSize / wqeSize) * (wqeSize / BLOCK_BYTES) <= wqSize / BLOCK_BYTES
    ensures IsPow2(wqSize / BLOCK_BYTES) && wqSize / BLOCK_BYTES > 0 && wqSize % BLOCK_BYTES == 0
  {
    QuotientAtLeast(wqSize, wqeSize, maxSendWr);
    QuotientFits(wqSize, wqeSize);
    PostsFit(wqSize, wqeSize / BLOCK_BYTES, wqeSize, wqSize / wqeSize);
    MulMono(1, maxSendWr, wqeSize);
    BlocksArePow2(wqSize);
  }

  /** Not one request more would fit. */
  lemma PostsFill(wqSize: nat, blocks: nat, wqeSize: nat, posts: nat)
    requires wqeSize == BLOCK_BYTES * blocks && wqeSize > 0 && posts == wqSize / wqeSize
    ensures wqSize / BLOCK_BYTES < (posts + 1) * blocks
  {
    assert wqSize < (posts + 1) * wqeSize by { assert (posts + 1) * wqeSize == posts * wqeSize + wqeSize; }
    assert (posts + 1) * wqeSize == BLOCK_BYTES * ((posts + 1) * blocks);
  }

  lemma BlocksArePow2(wqSize: nat)
    requires IsPow2(wqSize) && wqSize >= BLOCK_BYTES
    ensures IsPow2(wqSize / BLOCK_BYTES) && wqSize / BLOCK_BYTES > 0 && wqSize % BLOCK_BYTES == 0
  {
    assert IsPow2(1);
    Pow2Double(1); Pow2Double(2); Pow2Double(4); Pow2Double(8); Pow2Double(16); Pow2Double(32);
    Pow2Divides(BLOCK_BYTES, wqSize);
  }
}
