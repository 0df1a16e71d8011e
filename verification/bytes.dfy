/** Bytes of the input buffer, the little-endian loads the matchfinder
    compares, and the match-extension primitive `lz_extend`. */
module Bytes {

  type byte = x: int | 0 <= x < 256

  /** Value of a run of bytes read as a little-endian integer: what an
      unaligned load returns on the little-endian target the source is
      configured for. */
  function LittleEndian(s: seq<byte>): nat
  {
    if |s| == 0 then 0 else s[0] + 256 * LittleEndian(s[1..])
  }

  /** Two runs of equal length load the same value exactly when they hold
      the same bytes, so comparing loads is comparing byte slices. */
  lemma {:induction false} LittleEndianInjective(a: seq<byte>, b: seq<byte>)
    requires |a| == |b|
    ensures LittleEndian(a) == LittleEndian(b) <==> a == b
  {
    if |a| > 0 && LittleEndian(a) == LittleEndian(b) {
      var x, y := LittleEndian(a[1..]), LittleEndian(b[1..]);
      assert a[0] + 256 * x == b[0] + 256 * y;
      LittleEndianInjective(a[1..], b[1..]);
      assert a == [a[0]] + a[1..];
      assert b == [b[0]] + b[1..];
    }
  }

  /** `load_u24_unaligned`: the three bytes at `p`. */
  function Load3(buf: seq<byte>, p: nat): nat
    requires p + 3 <= |buf|
  {
    LittleEndian(buf[p..p + 3])
  }

  /** `load_u32_unaligned`: the four bytes at `p`. */
  function Load4(buf: seq<byte>, p: nat): nat
    requires p + 4 <= |buf|
  {
    LittleEndian(buf[p..p + 4])
  }

  /** `loaded_u32_to_u24`: the low three bytes of a loaded word. */
  function ToU24(x: nat): nat
  {
    x % 0x100_0000
  }

  lemma LittleEndian3(s: seq<byte>)
    requires |s| == 3
    ensures LittleEndian(s) == s[0] as int + 256 * (s[1] as int) + 65536 * (s[2] as int)
  {
    assert s[1..][1..] == s[2..];
    assert s[2..][1..] == [];
    assert LittleEndian(s[2..]) == s[2] as int;
    assert LittleEndian(s[1..]) == s[1] as int + 256 * (s[2] as int);
  }

  lemma LittleEndian4(s: seq<byte>)
    requires |s| == 4
    ensures LittleEndian(s) == LittleEndian(s[..3]) + 0x100_0000 * (s[3] as int)
  {
    var t := s[..3];
    LittleEndian3(t);
    assert s[1..][1..] == s[2..];
    assert s[2..][1..] == s[3..];
    assert s[3..][1..] == [];
    assert LittleEndian(s[3..]) == s[3] as int;
    assert LittleEndian(s[2..]) == s[2] as int + 256 * (s[3] as int);
    assert LittleEndian(s[1..]) == s[1] as int + 256 * (s[2] as int) + 65536 * (s[3] as int);
    assert t[0] == s[0] && t[1] == s[1] && t[2] == s[2];
  }

  /** Truncating a loaded word to 24 bits gives the 3-byte load at the
      same position. */
  lemma Load4ToU24(buf: seq<byte>, p: nat)
    requires p + 4 <= |buf|
    ensures ToU24(Load4(buf, p)) == Load3(buf, p)
  {
    var s := buf[p..p + 4];
    LittleEndian4(s);
    LittleEndian3(s[..3]);
    assert s[..3] == buf[p..p + 3];
    var lo := LittleEndian(s[..3]);
    assert lo < 0x100_0000;
    assert (lo + 0x100_0000 * (s[3] as int)) % 0x100_0000 == lo;
  }

  /** Equal 4-byte loads mean equal 4-byte slices, and conversely. */
  lemma Load4Equal(buf: seq<byte>, p: nat, q: nat)
    requires p + 4 <= |buf| && q + 4 <= |buf|
    ensures Load4(buf, p) == Load4(buf, q) <==> buf[p..p + 4] == buf[q..q + 4]
  {
    LittleEndianInjective(buf[p..p + 4], buf[q..q + 4]);
  }

  /** Equal 3-byte loads mean equal 3-byte slices, and conversely. */
  lemma Load3Equal(buf: seq<byte>, p: nat, q: nat)
    requires p + 3 <= |buf| && q + 3 <= |buf|
    ensures Load3(buf, p) == Load3(buf, q) <==> buf[p..p + 3] == buf[q..q + 3]
  {
    LittleEndianInjective(buf[p..p + 3], buf[q..q + 3]);
  }

  /** The `len` bytes at `m` equal the `len` bytes at `s`. */
  predicate Matches(buf: seq<byte>, s: nat, m: nat, len: nat)
  {
    s + len <= |buf| && m + len <= |buf| && buf[s..s + len] == buf[m..m + len]
  }

  /** `lz_extend(strptr, matchptr, start, max)`: given that the first
      `start` bytes at `s` and `m` are already equal, the length of their
      common run, capped at `max`. */
  function Extend(buf: seq<byte>, s: nat, m: nat, start: nat, max: nat): (r: nat)
    requires start <= max && s + max <= |buf| && m + max <= |buf|
    requires buf[s..s + start] == buf[m..m + start]
    ensures start <= r <= max
    ensures Matches(buf, s, m, r)
    ensures r < max ==> buf[s + r] != buf[m + r]
    decreases max - start
  {
    if start < max && buf[s + start] == buf[m + start] then
      SliceGrow(buf, s, m, start);
      Extend(buf, s, m, start + 1, max)
    else
      start
  }

  /** Equal runs of `k` bytes followed by equal bytes are equal runs of
      `k + 1` bytes. */
  lemma SliceGrow(buf: seq<byte>, s: nat, m: nat, k: nat)
    requires s + k < |buf| && m + k < |buf|
    requires buf[s..s + k] == buf[m..m + k] && buf[s + k] == buf[m + k]
    ensures buf[s..s + k + 1] == buf[m..m + k + 1]
  {
    assert buf[s..s + k + 1] == buf[s..s + k] + [buf[s + k]];
    assert buf[m..m + k + 1] == buf[m..m + k] + [buf[m + k]];
  }

  /** The common run of the bytes at `s` and `m`, capped at `max`,
      measured from the first byte. */
  function CommonLen(buf: seq<byte>, s: nat, m: nat, max: nat): nat
    requires s + max <= |buf| && m + max <= |buf|
  {
    Extend(buf, s, m, 0, max)
  }

  /** The contract of `Extend` pins its result down: any length that is
      a common run and is either `max` or followed by a mismatch is it. */
  lemma ExtendUnique(buf: seq<byte>, s: nat, m: nat, start: nat, max: nat, k: nat)
    requires start <= max && s + max <= |buf| && m + max <= |buf|
    requires buf[s..s + start] == buf[m..m + start]
    requires start <= k <= max && Matches(buf, s, m, k)
    requires k < max ==> buf[s + k] != buf[m + k]
    ensures Extend(buf, s, m, start, max) == k
  {
    var r := Extend(buf, s, m, start, max);
    MatchesAt(buf, s, m, k, r);
    MatchesAt(buf, s, m, r, k);
  }

  /** Inside a match the bytes agree one by one. */
  lemma MatchesAt(buf: seq<byte>, s: nat, m: nat, len: nat, i: nat)
    requires Matches(buf, s, m, len)
    ensures i < len ==> buf[s + i] == buf[m + i]
  {
    if i < len {
      assert buf[s + i] == buf[s..s + len][i];
      assert buf[m + i] == buf[m..m + len][i];
    }
  }

  /** A match of at least one byte starts with equal bytes. */
  lemma MatchesFirst(buf: seq<byte>, s: nat, m: nat, len: nat)
    requires Matches(buf, s, m, len) && 1 <= len
    ensures buf[s] == buf[m]
  {
    MatchesAt(buf, s, m, len, 0);
  }

  /** Extension does not depend on where it starts, as long as the bytes
      it skips are equal: `lz_extend` from 4 agrees with it from 0. */
  lemma ExtendFromAnyStart(buf: seq<byte>, s: nat, m: nat, start: nat, max: nat)
    requires start <= max && s + max <= |buf| && m + max <= |buf|
    requires buf[s..s + start] == buf[m..m + start]
    ensures Extend(buf, s, m, start, max) == CommonLen(buf, s, m, max)
  {
    var r := Extend(buf, s, m, start, max);
    ExtendUnique(buf, s, m, 0, max, r);
  }

  /** The capped common run is at least `k` exactly when the first `k`
      bytes agree. */
  lemma CommonLenAtLeast(buf: seq<byte>, s: nat, m: nat, max: nat, k: nat)
    requires s + max <= |buf| && m + max <= |buf| && k <= max
    ensures CommonLen(buf, s, m, max) >= k <==> buf[s..s + k] == buf[m..m + k]
  {
    var r := CommonLen(buf, s, m, max);
    if r >= k {
      assert buf[s..s + k] == buf[s..s + r][..k];
      assert buf[m..m + k] == buf[m..m + r][..k];
    }
  }

  /** A single differing byte at index `i` caps the common run at `i`. */
  lemma CommonLenBelowMismatch(buf: seq<byte>, s: nat, m: nat, max: nat, i: nat)
    requires s + max <= |buf| && m + max <= |buf| && i < max
    requires buf[s + i] != buf[m + i]
    ensures CommonLen(buf, s, m, max) <= i
  {
    var r := CommonLen(buf, s, m, max);
  }
}
