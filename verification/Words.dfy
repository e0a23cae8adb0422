/** Byte-addressed memory: the 4-byte tag words that GET and PUT reach through `uint32_t *`,
    and the 8-byte link slots of the explicit free list. Addresses are offsets from mem_start_brk. */
module Words {
  type byte = x: int | 0 <= x < 0x100
  type uint32 = x: int | 0 <= x < 0x1_0000_0000
  type uint64 = x: int | 0 <= x < 0x1_0000_0000_0000_0000

  /** A C pointer into the arena, or NULL. */
  datatype Ptr = Null | At(addr: nat)

  /** The little-endian value of the bytes at addresses lo..hi-1. */
  function Value(m: seq<byte>, lo: nat, hi: nat): nat
    requires hi <= |m|
    decreases hi - lo
  {
    if hi <= lo then 0 else m[lo] as int + 0x100 * Value(m, lo + 1, hi)
  }

  /** GET(p) */
  function GetWord(m: seq<byte>, p: int): nat
    requires 0 <= p <= |m| - 4
  {
    Value(m, p, p + 4)
  }

  /** The 64-bit value at address p. */
  function GetLong(m: seq<byte>, p: int): nat
    requires 0 <= p <= |m| - 8
  {
    Value(m, p, p + 8)
  }

  ghost predicate SameAt(m: seq<byte>, m': seq<byte>, k: int)
    requires |m| == |m'| && 0 <= k < |m|
  {
    m'[k] == m[k]
  }

  /** m and m' agree everywhere except possibly on addresses lo..hi-1. */
  ghost predicate SameOutside(m: seq<byte>, m': seq<byte>, lo: int, hi: int) {
    |m| == |m'| && forall k :: 0 <= k < |m| && !(lo <= k < hi) ==> SameAt(m, m', k)
  }

  /** Two writes inside lo..hi-1, the second inside lo2..hi2-1. */
  lemma SameTwice(m: seq<byte>, m1: seq<byte>, m2: seq<byte>, lo: int, hi: int, lo2: int, hi2: int)
    requires SameOutside(m, m1, lo, hi) && SameOutside(m1, m2, lo2, hi2) && lo <= lo2 && hi2 <= hi
    ensures SameOutside(m, m2, lo, hi)
  {
    forall k | 0 <= k < |m| && !(lo <= k < hi) ensures SameAt(m, m2, k) {
      assert SameAt(m, m1, k) && SameAt(m1, m2, k);
    }
  }

  lemma SameWiden(m: seq<byte>, m': seq<byte>, lo: int, hi: int, lo': int, hi': int)
    requires SameOutside(m, m', lo', hi') && lo <= lo' && hi' <= hi
    ensures SameOutside(m, m', lo, hi)
  {
  }

  /** The n bytes at dst in m' are the n bytes at src in m. */
  ghost predicate Copied(m: seq<byte>, src: nat, m': seq<byte>, dst: nat, n: nat) {
    src + n <= |m| && dst + n <= |m'| && m'[dst..dst + n] == m[src..src + n]
  }

  lemma CopiedFewer(m: seq<byte>, src: nat, m': seq<byte>, dst: nat, n: nat, fewer: nat)
    requires Copied(m, src, m', dst, n) && fewer <= n
    ensures Copied(m, src, m', dst, fewer)
  {
    assert m'[dst..dst + fewer] == m'[dst..dst + n][..fewer];
    assert m[src..src + fewer] == m[src..src + n][..fewer];
  }

  lemma CopiedMeans(m: seq<byte>, src: nat, m': seq<byte>, dst: nat, n: nat)
    requires src + n <= |m| && dst + n <= |m'|
    ensures Copied(m, src, m', dst, n) <==> forall k :: dst <= k < dst + n ==> m'[k] == m[src + (k - dst)]
  {
    if Copied(m, src, m', dst, n) {
      forall k | dst <= k < dst + n ensures m'[k] == m[src + (k - dst)] {
        assert m'[dst..dst + n][k - dst] == m[src..src + n][k - dst];
      }
    }
  }

  lemma CopiedAll(m: seq<byte>, src: nat, m': seq<byte>, dst: nat, n: nat)
    requires Copied(m, src, m', dst, n)
    ensures forall fewer: nat :: fewer <= n ==> Copied(m, src, m', dst, fewer)
  {
    forall fewer: nat | fewer <= n ensures Copied(m, src, m', dst, fewer) {
      CopiedFewer(m, src, m', dst, n, fewer);
    }
  }

  lemma SameValue(m: seq<byte>, m': seq<byte>, p: nat, q: nat)
    requires |m| == |m'| && q <= |m|
    requires forall k :: p <= k < q ==> SameAt(m, m', k)
    ensures Value(m', p, q) == Value(m, p, q)
    decreases q - p
  {
    if p < q {
      assert SameAt(m, m', p);
      SameValue(m, m', p + 1, q);
    }
  }

  /** A word outside the bytes that may differ keeps its value. */
  lemma SameWord(m: seq<byte>, m': seq<byte>, lo: int, hi: int, p: int)
    requires SameOutside(m, m', lo, hi) && 0 <= p <= |m| - 4 && (p + 4 <= lo || hi <= p)
    ensures GetWord(m', p) == GetWord(m, p)
  {
    SameValue(m, m', p, p + 4);
  }

  function Limit(n: nat): nat {
    if n == 0 then 1 else 0x100 * Limit(n - 1)
  }

  method PutBytes(mem: array<byte>, p: nat, n: nat, val: nat)
    requires p + n <= mem.Length && val < Limit(n)
    modifies mem
    ensures Value(mem[..], p, p + n) == val
    ensures SameOutside(old(mem[..]), mem[..], p, p + n)
    decreases n
  {
    if n > 0 {
      ghost var m := mem[..];
      mem[p] := val % 0x100;
      ghost var m1 := mem[..];
      PutBytes(mem, p + 1, n - 1, val / 0x100);
      ghost var m2 := mem[..];
      assert SameAt(m1, m2, p);
      assert Value(m2, p + 1, p + n) == val / 0x100;
      forall k | 0 <= k < |m| && !(p <= k < p + n) ensures SameAt(m, m2, k) {
        assert SameAt(m1, m2, k);
      }
    }
  }

  /** PUT(p, val) */
  method PutWord(mem: array<byte>, p: int, val: uint32)
    requires 0 <= p <= mem.Length - 4
    modifies mem
    ensures GetWord(mem[..], p) == val
    ensures SameOutside(old(mem[..]), mem[..], p, p + 4)
  {
    PutBytes(mem, p, 4, val);
  }

  /** PUT_64VAL(p, val) */
  method PutLong(mem: array<byte>, p: int, val: uint64)
    requires 0 <= p <= mem.Length - 8
    modifies mem
    ensures GetLong(mem[..], p) == val
    ensures SameOutside(old(mem[..]), mem[..], p, p + 8)
  {
    PutBytes(mem, p, 8, val);
  }

  /** The tag macros on bit patterns: for a size whose low three bits are clear, `|` stores the alloc
      bit beside it, and `& ~0x7` and `& 0x1` take the two apart; on numbers these are the +, the
      rounding down to a multiple of 8 and the parity used by Blocks.Tag, SizeOf and AllocOf. */
  lemma TagBits(size: bv32, a: bv32)
    requires size & 7 == 0 && a <= 1
    ensures size | a == size + a
    ensures (size | a) & !7 == size && (size | a) & 1 == a
  {
  }
}
