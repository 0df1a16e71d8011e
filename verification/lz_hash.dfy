/** The hash codes the matchfinder buckets positions by. The concrete
    multiplicative hash is not part of this model: `lz_hash(x, order)` is a
    parameter, any total function whose result fits in `order` bits. */
module LzHash {
  import opened Bytes

  /** HC_MATCHFINDER_HASH3_ORDER and HC_MATCHFINDER_HASH4_ORDER. */
  const HASH3_ORDER: nat := 15
  const HASH4_ORDER: nat := 16

  /** Bucket counts of the two hash tables, `1UL << HC_MATCHFINDER_HASH*_ORDER`,
      written as literals; `TableSizes` ties them to the orders. */
  const HASH3_SIZE: nat := 0x8000
  const HASH4_SIZE: nat := 0x1_0000

  /** 2^n, the helper `TableSizes` and `HashFn` state sizes with. */
  function Pow2(n: nat): (r: nat)
    ensures r >= 1
  {
    if n == 0 then 1 else 2 * Pow2(n - 1)
  }

  /** The literal bucket counts are `1 << HASH3_ORDER` and `1 << HASH4_ORDER`. */
  lemma TableSizes()
    ensures Pow2(HASH3_ORDER) == HASH3_SIZE
    ensures Pow2(HASH4_ORDER) == HASH4_SIZE
  {
    assert Pow2(16) == 2 * Pow2(15);
    assert Pow2(15) == 0x8000;
  }

  /** `lz_hash(x, order)`: any hash whose code is below 2^order. */
  type HashFn = f: (nat, nat) -> nat | forall x: nat, order: nat :: f(x, order) < Pow2(order)
    witness (x: nat, order: nat) => 0

  /** The `next_hashes` pair: the 3-byte and the 4-byte hash code of the
      sequence at the next position to be inserted. */
  datatype Hashes = Hashes(h3: nat, h4: nat)

  /** Both codes index into their tables. */
  predicate InRange(h: Hashes)
  {
    h.h3 < HASH3_SIZE && h.h4 < HASH4_SIZE
  }

  /** The hash codes of the sequence at `p`: the 4-byte word there, and its
      low three bytes. */
  function WindowHashes(hash: HashFn, buf: seq<byte>, p: nat): (r: Hashes)
    requires p + 4 <= |buf|
    ensures InRange(r)
    ensures r.h3 == hash(Load3(buf, p), HASH3_ORDER)
    ensures r.h4 == hash(Load4(buf, p), HASH4_ORDER)
  {
    TableSizes();
    Load4ToU24(buf, p);
    var seq4 := Load4(buf, p);
    Hashes(hash(ToU24(seq4), HASH3_ORDER), hash(seq4, HASH4_ORDER))
  }

  /** The codes depend only on the four bytes at the position: sequences
      with equal 4-byte prefixes share both buckets, and sequences with equal
      3-byte prefixes share the 3-byte bucket. */
  lemma WindowHashesAgree(hash: HashFn, buf: seq<byte>, p: nat, q: nat)
    requires p + 4 <= |buf| && q + 4 <= |buf|
    ensures buf[p..p + 3] == buf[q..q + 3] ==> WindowHashes(hash, buf, p).h3 == WindowHashes(hash, buf, q).h3
    ensures buf[p..p + 4] == buf[q..q + 4] ==> WindowHashes(hash, buf, p) == WindowHashes(hash, buf, q)
  {
    Load3Equal(buf, p, q);
    Load4Equal(buf, p, q);
  }
}
