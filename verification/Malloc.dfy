/** The allocator accounting of tflib/tf_malloc.c, where the size of a block is kept in a prefix before it. */
module Malloc {
  /** sizeof(long), PREFIX_SIZE and the number of size_t values. */
  datatype Platform = Platform(unit: nat, prefix: nat, range: nat)

  /** The builds the source distinguishes. */
  predicate Supported(p: Platform) {
    || p == Platform(8, 8, 0x1_0000_0000_0000_0000)   // 64-bit long
    || p == Platform(4, 8, 0x1_0000_0000_0000_0000)   // 64-bit size_t, 32-bit long
    || p == Platform(4, 4, 0x1_0000_0000)             // 32-bit
    || p == Platform(4, 8, 0x1_0000_0000)             // 32-bit SPARC, whose prefix is a long long
  }

  /** What a platform needs for the accounting to be right. */
  predicate Aligned(p: Platform) {
    p.unit > 0 && p.prefix % p.unit == 0 && p.range > 0 && p.range % p.unit == 0
  }

  lemma SupportedIsAligned(p: Platform)
    requires Supported(p)
    ensures Aligned(p)
  {
  }

  /** Rounding up to the unit, in size_t. */
  function Round(p: Platform, n: nat): (r: nat)
    requires Aligned(p)
    ensures r < p.range
  {
    var m := n % p.range;
    (if m % p.unit != 0 then m + (p.unit - m % p.unit) else m) % p.range
  }

  /** tf_malloc_size of a block whose prefix holds this size. */
  function BlockSize(p: Platform, size: nat): (r: nat)
    requires Aligned(p)
    ensures r < p.range
  {
    (Round(p, size) + p.prefix) % p.range
  }

  // ----- the prefix and the rounding agree -----

  /** Rounding without the bound of size_t. */
  function Up(unit: nat, n: nat): nat
    requires unit > 0
  {
    if n % unit != 0 then n + (unit - n % unit) else n
  }

  /** Rounding up gives the least multiple of the unit that is not below the number. */
  lemma UpIsLeast(unit: nat, n: nat, k: nat)
    requires unit > 0
    ensures Up(unit, n) % unit == 0 && n <= Up(unit, n) < n + unit
    ensures k % unit == 0 && k >= n ==> k >= Up(unit, n)
  {
    var up := Up(unit, n);
    assert n == n / unit * unit + n % unit;
    if n % unit != 0 {
      Distribute(n / unit, -1, unit);
      assert up == (n / unit + 1) * unit;
    }
    var q := if n % unit != 0 then n / unit + 1 else n / unit;
    ModUnique(up, q, 0, unit);
    if k % unit == 0 && n <= k < up {
      assert k == k / unit * unit;
      Distribute(q, k / unit, unit);
      assert (q - k / unit) * unit == up - k;
      NoMultiple(q - k / unit, unit, up - k);
    }
  }

  /** So with a size that does not come near the range of size_t, a block counts as that multiple and its prefix. */
  lemma SmallBlockSize(p: Platform, size: nat)
    requires Aligned(p) && size + p.unit + p.prefix < p.range
    ensures BlockSize(p, size) == Up(p.unit, size) + p.prefix
  {
    UpIsLeast(p.unit, size, 0);
    RoundIsUp(p, size);
    ModUnique(Up(p.unit, size), 0, Up(p.unit, size), p.range);
    ModUnique(Up(p.unit, size) + p.prefix, 0, Up(p.unit, size) + p.prefix, p.range);
  }

  /** A prefix passes through the rounding, for every size, exactly when it is a multiple of the unit. */
  lemma PrefixPasses(unit: nat, prefix: nat)
    requires unit > 0
    ensures (forall size: nat :: Up(unit, size + prefix) == Up(unit, size) + prefix) <==> prefix % unit == 0
  {
    if prefix % unit == 0 {
      forall size: nat ensures Up(unit, size + prefix) == Up(unit, size) + prefix {
        PrefixPassesFor(unit, prefix, size);
      }
    } else {
      ModUnique(0, 0, 0, unit);
      assert Up(unit, 0 + prefix) != Up(unit, 0) + prefix;
    }
  }

  lemma PrefixPassesFor(unit: nat, prefix: nat, size: nat)
    requires unit > 0 && prefix % unit == 0
    ensures Up(unit, size + prefix) == Up(unit, size) + prefix
  {
    assert prefix == prefix / unit * unit;
    ModShift(size, prefix / unit, unit);
  }

  lemma RoundIsUp(p: Platform, n: nat)
    requires Aligned(p)
    ensures Round(p, n) == Up(p.unit, n) % p.range
  {
    var m, q := n % p.range, n / p.range;
    assert n == q * p.range + m;
    assert p.range == p.range / p.unit * p.unit;
    Associate(q, p.range / p.unit, p.unit);
    ModShift(m, q * (p.range / p.unit), p.unit);
    var pad := if m % p.unit != 0 then p.unit - m % p.unit else 0;
    ModAdd(n, pad, p.range);
  }

  lemma Associate(a: int, b: int, c: int)
    ensures a * (b * c) == a * b * c
  {
  }

  /** What tf_alloc counts for a block is what tf_malloc_size says of it, whatever the size. */
  lemma CountedIsBlockSize(p: Platform, size: nat)
    requires Aligned(p)
    ensures Round(p, size + p.prefix) == BlockSize(p, size)
  {
    RoundIsUp(p, size + p.prefix);
    RoundIsUp(p, size);
    PrefixPassesFor(p.unit, p.prefix, size);
    ModAdd(Up(p.unit, size), p.prefix, p.range);
  }

  /** What tf_realloc adds and subtracts, without the prefix on either side, changes the count as much as tf_malloc_size
      changes. */
  lemma UnprefixedDifference(p: Platform, used: int, was: nat, now: nat)
    requires Aligned(p)
    ensures ((used - Round(p, was)) % p.range + Round(p, now)) % p.range
            == (used - BlockSize(p, was) + BlockSize(p, now)) % p.range
  {
    var r0, r1 := Round(p, was), Round(p, now);
    var b0, b1 := BlockSize(p, was), BlockSize(p, now);
    assert b0 == (r0 + p.prefix) % p.range && b1 == (r1 + p.prefix) % p.range;
    hide Round, BlockSize;
    ModAdd(used - r0, r1, p.range);
    SameDifference(r0 + p.prefix, r1 + p.prefix, used, p.range);
  }

  lemma SameDifference(x: int, y: int, used: int, m: nat)
    requires m > 0
    ensures (used - x + y) % m == (used - x % m + y % m) % m
  {
    var q0, q1 := x / m, y / m;
    assert x == q0 * m + x % m && y == q1 * m + y % m;
    Distribute(q1, q0, m);
    ModShift(used - x % m + y % m, q1 - q0, m);
  }

  // ----- live blocks -----

  /** The sum of tf_malloc_size over the live blocks, given by the sizes in their prefixes. */
  ghost function Total(p: Platform, sizes: map<nat, nat>): nat
    requires Aligned(p)
    decreases |sizes|
  {
    if sizes == map[] then 0
    else
      var ptr :| ptr in sizes;
      BlockSize(p, sizes[ptr]) + Total(p, sizes - {ptr})
  }

  lemma {:induction false} TotalWithout(p: Platform, sizes: map<nat, nat>, ptr: nat)
    requires Aligned(p) && ptr in sizes
    ensures Total(p, sizes) == BlockSize(p, sizes[ptr]) + Total(p, sizes - {ptr})
    decreases |sizes|
  {
    var k :| k in sizes && Total(p, sizes) == BlockSize(p, sizes[k]) + Total(p, sizes - {k});
    if k != ptr {
      TotalWithout(p, sizes - {k}, ptr);
      TotalWithout(p, sizes - {ptr}, k);
      assert sizes - {k} - {ptr} == sizes - {ptr} - {k};
    }
  }

  lemma TotalWith(p: Platform, sizes: map<nat, nat>, ptr: nat, size: nat)
    requires Aligned(p) && ptr !in sizes
    ensures Total(p, sizes[ptr := size]) == Total(p, sizes) + BlockSize(p, size)
  {
    TotalWithout(p, sizes[ptr := size], ptr);
    assert sizes[ptr := size] - {ptr} == sizes;
  }

  const NULL: nat := 0

  class Allocator {
    const platform: Platform
    var usedMemory: nat
    /** The size in the prefix of each live block, by the pointer the caller holds. */
    var sizes: map<nat, nat>

    /** The count is the total of the live blocks, in size_t. */
    ghost predicate Valid()
      reads this
    {
      Aligned(platform) && NULL !in sizes && usedMemory == Total(platform, sizes) % platform.range
    }

    constructor (platform: Platform)
      requires Supported(platform)
      ensures Valid() && this.platform == platform && usedMemory == 0 && sizes == map[]
    {
      SupportedIsAligned(platform);
      this.platform := platform;
      usedMemory, sizes := 0, map[];
      new;
      ModUnique(0, 0, 0, platform.range);
    }

    /** With nothing live the count is zero. */
    lemma NothingLive()
      requires Valid() && sizes == map[]
      ensures usedMemory == 0
    {
      ModUnique(0, 0, 0, platform.range);
    }

    method StatAlloc(n: nat)
      requires Aligned(platform)
      modifies this`usedMemory
      ensures usedMemory == (old(usedMemory) + Round(platform, n)) % platform.range
    {
      usedMemory := (usedMemory + Round(platform, n)) % platform.range;
    }

    method StatFree(n: nat)
      requires Aligned(platform)
      modifies this`usedMemory
      ensures usedMemory == (old(usedMemory) - Round(platform, n)) % platform.range
    {
      usedMemory := (usedMemory - Round(platform, n)) % platform.range;
    }

    method MallocSize(ptr: nat) returns (size: nat)
      requires Valid() && ptr in sizes
      ensures size == BlockSize(platform, sizes[ptr])
    {
      size := (Round(platform, sizes[ptr]) + platform.prefix) % platform.range;
    }

    /** tf_alloc and tf_calloc, malloc having found a block. */
    method Alloc(size: nat, ptr: nat)
      requires Valid() && ptr != NULL && ptr !in sizes
      modifies this
      ensures Valid() && sizes == old(sizes)[ptr := size]
    {
      TotalWith(platform, sizes, ptr, size);
      CountedIsBlockSize(platform, size);
      ModAdd(Total(platform, sizes), BlockSize(platform, size), platform.range);
      sizes := sizes[ptr := size];
      StatAlloc(size + platform.prefix);
    }

    /** tf_realloc, which may move the block or leave it. */
    method Realloc(ptr: nat, size: nat, newptr: nat)
      requires Valid() && newptr != NULL && (ptr == NULL || ptr in sizes) && (newptr == ptr || newptr !in sizes)
      modifies this
      ensures Valid() && sizes == old(sizes - {ptr})[newptr := size]
    {
      if ptr == NULL {
        assert sizes - {NULL} == sizes;
        Alloc(size, newptr);
        return;
      }
      var oldsize := sizes[ptr];
      ghost var total := Total(platform, sizes);
      TotalWithout(platform, sizes, ptr);
      TotalWith(platform, sizes - {ptr}, newptr, size);
      UnprefixedDifference(platform, usedMemory, oldsize, size);
      ModAdd(total, BlockSize(platform, size) - BlockSize(platform, oldsize), platform.range);
      sizes := (sizes - {ptr})[newptr := size];
      StatFree(oldsize);
      StatAlloc(size);
    }

    method Free(ptr: nat)
      requires Valid() && (ptr == NULL || ptr in sizes)
      modifies this
      ensures Valid() && sizes == old(sizes) - {ptr}
    {
      if ptr == NULL {
        assert sizes - {NULL} == sizes;
        return;
      }
      var oldsize := sizes[ptr];
      ghost var counted: int := BlockSize(platform, oldsize);
      TotalWithout(platform, sizes, ptr);
      CountedIsBlockSize(platform, oldsize);
      hide Total, Round, BlockSize;
      ModAdd(Total(platform, sizes), -counted, platform.range);
      StatFree(oldsize + platform.prefix);
      sizes := sizes - {ptr};
    }
  }

  // ----- arithmetic modulo the range of size_t -----

  lemma ModAdd(a: int, b: int, m: nat)
    requires m > 0
    ensures (a % m + b) % m == (a + b) % m
  {
    var q := a / m;
    assert a == q * m + a % m;
    ModShift(a % m + b, q, m);
  }

  lemma ModShift(x: int, q: int, m: nat)
    requires m > 0
    ensures (x + q * m) % m == x % m
  {
    var k, r := x / m, x % m;
    assert x + q * m == (k + q) * m + r;
    ModUnique(x + q * m, k + q, r, m);
  }

  lemma ModUnique(x: int, q: int, r: int, m: nat)
    requires m > 0 && x == q * m + r && 0 <= r < m
    ensures x % m == r
  {
    var k, s := x / m, x % m;
    assert x == k * m + s;
    Distribute(k, q, m);
    NoMultiple(k - q, m, r - s);
  }

  lemma Distribute(k: int, q: int, m: int)
    ensures (k - q) * m == k * m - q * m
  {
  }

  lemma NoMultiple(d: int, m: int, e: int)
    requires d * m == e && 0 < m && -m < e < m
    ensures d == 0
  {
    assert (-d) * m == -(d * m);
    if d > 0 {
      AtLeast(d, m);
    } else if d < 0 {
      AtLeast(-d, m);
    }
  }

  lemma {:induction false} AtLeast(k: nat, m: nat)
    requires k > 0
    ensures k * m >= m
  {
    if k > 1 {
      AtLeast(k - 1, m);
      assert k * m == (k - 1) * m + m;
    }
  }
}
