/** IPv4 blocks with zero host bits, as intervals of numbers, and how two of them can overlap. */
module CidrBlocks {
  import opened CidrAddress

  function Pow2(k: nat): (r: nat)
    ensures r > 0
  {
    if k == 0 then 1 else 2 * Pow2(k - 1)
  }

  /** x without its k lowest bits. */
  function Shift(x: nat, k: nat): nat {
    if k == 0 then x else Shift(x / 2, k - 1)
  }

  /** The k lowest bits of x are zero. */
  predicate Aligned(x: nat, k: nat) {
    k == 0 || (x % 2 == 0 && Aligned(x / 2, k - 1))
  }

  /** How many addresses a prefix of p bits leaves open. */
  function Size(p: V4Prefix): (r: nat)
    ensures r > 0
  {
    Pow2(32 - p)
  }

  /** A valid IPv4 network whose host bits are zero. */
  predicate IsBlock(c: Cidr) {
    c.V4? && c.addr > 0 && Aligned(c.addr, 32 - c.pflen)
  }

  type Block = c: Cidr | IsBlock(c) witness V4(1, 32)

  /** cidr_contains for a host address: the first pflen bits agree (section 3.1 of RFC 4632). */
  predicate Contains(b: Block, x: nat) {
    x > 0 && Shift(x, 32 - b.pflen) == Shift(b.addr, 32 - b.pflen)
  }

  /** cidr_contains in general: the other address must also be at least as specific. */
  predicate Covers(b: Block, c: Cidr) {
    c.V4? && b.pflen <= c.pflen && Contains(b, c.addr)
  }

  function First(b: Block): nat { b.addr }

  function Last(b: Block): nat { b.addr + Size(b.pflen) - 1 }

  /** cidr_addr_broadcast, as a host address. */
  function Broadcast(b: Block): (r: Block)
    ensures r.addr == Last(b) && r.pflen == 32
  {
    LastFits(b);
    V4(Last(b), 32)
  }

  /** cidr_addr_hostmax: the broadcast address is no host, except in a /31 (section 2.1 of RFC 3021) and a /32. */
  function HostMax(b: Block): (r: Block)
    ensures First(b) <= r.addr <= Last(b) && r.pflen == 32
    ensures b.pflen >= 31 ==> r.addr == Last(b)
    ensures b.pflen < 31 ==> r.addr == Last(b) - 1
  {
    LastFits(b);
    SmallSizes(b.pflen);
    V4(if b.pflen < 31 then Last(b) - 1 else Last(b), 32)
  }

  lemma SmallSizes(p: V4Prefix)
    ensures p == 32 ==> Size(p) == 1
    ensures p == 31 ==> Size(p) == 2
    ensures p < 31 ==> Size(p) >= 4
  {
    if p < 31 {
      assert Pow2(32 - p) == 2 * Pow2(31 - p) && Pow2(31 - p) == 2 * Pow2(30 - p);
    }
  }

  lemma {:induction false} Pow2Sum(j: nat, k: nat)
    ensures Pow2(j + k) == Pow2(j) * Pow2(k)
  {
    if j > 0 {
      Pow2Sum(j - 1, k);
      assert Pow2(j + k) == 2 * (Pow2(j - 1) * Pow2(k));
    }
  }

  lemma WholeSpace()
    ensures Pow2(32) == V4_COUNT
  {
    assert Pow2(4) == 16;
    Pow2Sum(4, 4);
    Pow2Sum(8, 8);
    Pow2Sum(16, 16);
  }

  /** Dropping k bits of x gives those of an aligned a exactly on the 2^k numbers from a on. */
  lemma {:induction false} ShiftInterval(x: nat, a: nat, k: nat)
    requires Aligned(a, k)
    ensures Shift(x, k) == Shift(a, k) <==> a <= x < a + Pow2(k)
  {
    if k > 0 {
      ShiftInterval(x / 2, a / 2, k - 1);
    }
  }

  lemma {:induction false} ShiftTwice(x: nat, j: nat, k: nat)
    ensures Shift(x, j + k) == Shift(Shift(x, j), k)
  {
    if j > 0 {
      ShiftTwice(x / 2, j - 1, k);
    }
  }

  lemma {:induction false} AlignedFits(a: nat, k: nat, m: nat)
    requires k <= m && Aligned(a, k) && a < Pow2(m)
    ensures a + Pow2(k) <= Pow2(m)
  {
    if k > 0 {
      AlignedFits(a / 2, k - 1, m - 1);
    }
  }

  /** A block is the interval from its first to its last address. */
  lemma ContainsIsInterval(b: Block, x: nat)
    ensures Contains(b, x) <==> First(b) <= x <= Last(b)
  {
    ShiftInterval(x, b.addr, 32 - b.pflen);
  }

  lemma LastFits(b: Block)
    ensures Last(b) < V4_COUNT
  {
    WholeSpace();
    AlignedFits(b.addr, 32 - b.pflen, 32);
  }

  /** Two blocks that share an address are nested: the one with the longer prefix lies inside the other. */
  lemma Nested(outer: Block, inner: Block, x: nat)
    requires outer.pflen <= inner.pflen
    requires Contains(outer, x) && Contains(inner, x)
    ensures First(outer) <= First(inner) && Last(inner) <= Last(outer)
    ensures outer.pflen == inner.pflen ==> outer == inner
  {
    forall y | Contains(inner, y)
      ensures Contains(outer, y)
    {
      ShiftTwice(x, 32 - inner.pflen, inner.pflen - outer.pflen);
      ShiftTwice(y, 32 - inner.pflen, inner.pflen - outer.pflen);
    }
    ContainsIsInterval(inner, First(inner));
    ContainsIsInterval(inner, Last(inner));
    ContainsIsInterval(outer, First(inner));
    ContainsIsInterval(outer, Last(inner));
  }
}
