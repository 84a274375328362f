/** The address pool: what LoadPool accepts and how rooms are cut out of it with uint32 arithmetic. */
module Pool {
  import opened Basics

  datatype Pool = Pool(base: nat, bits: nat)

  datatype PoolError = Unparsable | NotIPv4 | TooSmall

  /** The --pool flag: absent, not a prefix, or the prefix it parses to. */
  datatype PoolFlag = Unset | Malformed | Prefix(is4: bool, addr: nat, bits: nat)

  function Pow2(n: nat): (p: nat)
    ensures p > 0
  {
    if n == 0 then 1 else 2 * Pow2(n - 1)
  }

  /** The address with its low bits cleared, for a block of the given size. */
  function Masked(addr: nat, size: nat): nat
    requires size > 0
  {
    addr / size * size
  }

  predicate ValidPool(p: Pool) {
    p.bits <= 24 && p.base < TWO_32 && Masked(p.base, Pow2(32 - p.bits)) == p.base
  }

  /** The address lies in the pool. */
  predicate InPool(p: Pool, ip: int) {
    p.bits <= 32 && p.base <= ip < p.base + Pow2(32 - p.bits)
  }

  lemma PowersUpTo32()
    ensures Pow2(8) == 256 && Pow2(20) == 0x10_0000 && Pow2(32) == TWO_32
  {
    assert Pow2(4) == 16;
    assert Pow2(8) == 256;
    assert Pow2(12) == 4096;
    assert Pow2(16) == 0x1_0000;
    assert Pow2(20) == 0x10_0000;
    assert Pow2(24) == 0x100_0000;
    assert Pow2(28) == 0x1000_0000;
    assert Pow2(32) == TWO_32;
  }

  lemma {:induction false} PowSum(a: nat, b: nat)
    ensures Pow2(a + b) == Pow2(a) * Pow2(b)
  {
    if a > 0 {
      PowSum(a - 1, b);
      assert Pow2(a + b) == 2 * Pow2(a - 1 + b);
      assert 2 * (Pow2(a - 1) * Pow2(b)) == 2 * Pow2(a - 1) * Pow2(b);
    }
  }

  /** Exactly the IPv4 prefixes of at most 24 bits are accepted, and masking keeps the address inside. */
  function LoadPool(flag: PoolFlag): (res: Result<Pool, PoolError>)
    requires flag.Prefix? && flag.is4 ==> flag.addr < TWO_32 && flag.bits <= 32
    ensures res.Ok? <==> flag.Unset? || (flag.Prefix? && flag.is4 && flag.bits <= 24)
    ensures res.Ok? ==> ValidPool(res.value)
    ensures res.Ok? && flag.Prefix? ==> res.value.bits == flag.bits && InPool(res.value, flag.addr)
    ensures flag.Unset? ==> res == Ok(Pool(((10 * 256 + 240) * 256 + 0) * 256 + 0, 12))
    ensures res == Err(Unparsable) <==> flag.Malformed?
    ensures res == Err(NotIPv4) <==> flag.Prefix? && !flag.is4
    ensures res == Err(TooSmall) <==> flag.Prefix? && flag.is4 && flag.bits > 24
  {
    match flag
    case Unset =>
      PowersUpTo32();
      Ok(Pool(0x0AF0_0000, 12))
    case Malformed => Err(Unparsable)
    case Prefix(is4, addr, bits) =>
      if !is4 then Err(NotIPv4)
      else if bits > 24 then Err(TooSmall)
      else
        MaskedTwice(addr, Pow2(32 - bits));
        Ok(Pool(Masked(addr, Pow2(32 - bits)), bits))
  }

  lemma Monotone(a: nat, b: nat, size: nat)
    ensures a <= b ==> a * size <= b * size
  {
  }

  lemma QuotientIsUnique(n: nat, size: nat, q: nat)
    requires size > 0 && q * size <= n < q * size + size
    ensures n / size == q
  {
    var d := n / size;
    assert d * size <= n < d * size + size;
    Monotone(d + 1, q, size);
    Monotone(q + 1, d, size);
  }

  lemma MaskedTwice(addr: nat, size: nat)
    requires size > 0
    ensures Masked(addr, size) <= addr < Masked(addr, size) + size
    ensures Masked(Masked(addr, size), size) == Masked(addr, size)
  {
    assert addr == addr / size * size + addr % size;
    QuotientIsUnique(Masked(addr, size), size, addr / size);
  }

  /** How many /24 rooms the pool holds; a shift by a negative number, as a huge uint32, gives 0. */
  function MaxRooms(p: Pool): nat {
    if p.bits <= 24 then Pow2(24 - p.bits) else 0
  }

  /** The network address of a room, in uint32 arithmetic. */
  function RoomBase(p: Pool, index: nat): nat {
    (p.base + index * 256 % TWO_32) % TWO_32
  }

  lemma AlignedFits(base: nat, size: nat, count: nat)
    requires size > 0 && Masked(base, size) == base && base < count * size
    ensures base + size <= count * size
  {
    var q := base / size;
    Monotone(q + 1, count, size);
    Monotone(count, q, size);
  }

  /** The whole pool lies below 2^32 and holds MaxRooms blocks of 256 addresses. */
  lemma PoolFits(p: Pool)
    requires ValidPool(p)
    ensures p.base + Pow2(32 - p.bits) <= TWO_32
    ensures Pow2(32 - p.bits) == MaxRooms(p) * 256
  {
    PowersUpTo32();
    PowSum(p.bits, 32 - p.bits);
    PowSum(24 - p.bits, 8);
    AlignedFits(p.base, Pow2(32 - p.bits), Pow2(p.bits));
  }

  lemma MultipleOf256(q: nat, m: nat)
    ensures q * (m * 256) == q * m * 256
    ensures q * m * 256 % 256 == 0
  {
  }

  lemma BaseIsAligned(p: Pool)
    requires ValidPool(p)
    ensures p.base % 256 == 0
  {
    PoolFits(p);
    MultipleOf256(p.base / Pow2(32 - p.bits), MaxRooms(p));
  }

  /** For every index the allocator can give, no step of the address arithmetic wraps. */
  lemma RoomBaseDoesNotWrap(p: Pool, index: nat)
    requires ValidPool(p) && index < MaxRooms(p)
    ensures RoomBase(p, index) == p.base + index * 256
    ensures RoomBase(p, index) % 256 == 0
    ensures RoomBase(p, index) + 256 <= p.base + Pow2(32 - p.bits) <= TWO_32
  {
    PoolFits(p);
    BaseIsAligned(p);
    NoWrap(p.base, index, MaxRooms(p));
  }

  lemma NoWrap(base: nat, index: nat, rooms: nat)
    requires index < rooms && base % 256 == 0 && base + rooms * 256 <= TWO_32
    ensures (base + index * 256 % TWO_32) % TWO_32 == base + index * 256
    ensures (base + index * 256) % 256 == 0
    ensures base + index * 256 + 256 <= base + rooms * 256
  {
  }
}
