/** The MGF1 mask generation function of RFC 8017, appendix B.2.1, over
    SHA-256, and `calculate_mgf1_and_xor`, which XORs its output into a
    buffer in place. */
module Mgf1 {
  import opened Bytes
  import opened SecurityEngine

  /** `calculate_mgf1_and_xor` panics on a seed of this many bytes or more:
      its hash input buffer holds 0xE4 bytes, the seed plus a 4-byte counter. */
  const MaxSeedSize := 0xE0
  const HashBufferSize := 0xE4

  /** Block `round` of the mask stream: H(seed ‖ BE32(round)). The counter
      is a C `uint32_t`, so it wraps modulo 2^32. */
  function MaskBlock(h: Hash, seed: seq<Byte>, round: nat): Digest
  {
    h(seed + Be32(round % 0x1_0000_0000))
  }

  /** Byte `k` of the mask stream: byte k mod 32 of block k div 32. */
  function MaskByte(h: Hash, seed: seq<Byte>, k: nat): Byte
  {
    MaskBlock(h, seed, k / DigestSize)[k % DigestSize]
  }

  /** The first `len` bytes of the mask stream for `seed`. */
  function Mask(h: Hash, seed: seq<Byte>, len: nat): seq<Byte>
  {
    seq(len, k requires 0 <= k < len => MaskByte(h, seed, k))
  }

  /** The mask stream as RFC 8017 builds it: the blocks from `round` on,
      concatenated, and the last one cut to what is left of `len`. */
  function Blocks(h: Hash, seed: seq<Byte>, len: nat, round: nat): (m: seq<Byte>)
    ensures |m| == len
    decreases len
  {
    if len <= DigestSize then MaskBlock(h, seed, round)[..len]
    else MaskBlock(h, seed, round) + Blocks(h, seed, len - DigestSize, round + 1)
  }

  lemma {:induction false} BlocksAt(h: Hash, seed: seq<Byte>, len: nat, round: nat, k: nat)
    requires k < len
    ensures Blocks(h, seed, len, round)[k] == MaskBlock(h, seed, round + k / DigestSize)[k % DigestSize]
    decreases len
  {
    var first := MaskBlock(h, seed, round);
    if len <= DigestSize {
      assert Blocks(h, seed, len, round) == first[..len];
      assert k / DigestSize == 0 && k % DigestSize == k;
    } else {
      var rest := Blocks(h, seed, len - DigestSize, round + 1);
      assert Blocks(h, seed, len, round) == first + rest;
      if k < DigestSize {
        assert k / DigestSize == 0 && k % DigestSize == k;
      } else {
        BlocksAt(h, seed, len - DigestSize, round + 1, k - DigestSize);
        NextBlock(k);
      }
    }
  }

  lemma NextBlock(k: nat)
    requires k >= DigestSize
    ensures (k - DigestSize) / DigestSize + 1 == k / DigestSize
    ensures (k - DigestSize) % DigestSize == k % DigestSize
  {
  }

  /** The byte-indexed mask is the concatenation of
      H(seed ‖ BE32(0)), H(seed ‖ BE32(1)), … truncated to `len` bytes. */
  lemma MaskIsBlocks(h: Hash, seed: seq<Byte>, len: nat)
    ensures Mask(h, seed, len) == Blocks(h, seed, len, 0)
  {
    forall k | 0 <= k < len
      ensures Mask(h, seed, len)[k] == Blocks(h, seed, len, 0)[k]
    {
      assert Mask(h, seed, len)[k] == MaskBlock(h, seed, k / DigestSize)[k % DigestSize];
      BlocksAt(h, seed, len, 0, k);
    }
  }

  /** Masking a sub-buffer twice with the same seed restores it. */
  lemma MaskTwice(h: Hash, buf: seq<Byte>, start: nat, len: nat, seed: seq<Byte>)
    requires start + len <= |buf|
    ensures XorAt(XorAt(buf, start, Mask(h, seed, len)), start, Mask(h, seed, len)) == buf
  {
    XorAtTwice(buf, start, Mask(h, seed, len));
  }

  lemma MaskByteInBlock(h: Hash, seed: seq<Byte>, n: nat, i: nat)
    requires i < DigestSize
    ensures MaskByte(h, seed, DigestSize * n + i) == MaskBlock(h, seed, n)[i]
  {
    assert (DigestSize * n + i) / DigestSize == n;
    assert (DigestSize * n + i) % DigestSize == i;
  }

  lemma CounterStep(rounds: nat)
    ensures (rounds % 0x1_0000_0000 + 1) % 0x1_0000_0000 == (rounds + 1) % 0x1_0000_0000
  {
  }

  /** XORing one more digest byte into a partly masked block. */
  lemma XorAtExtend(buf: seq<Byte>, at: nat, d: seq<Byte>, i: nat)
    requires i < |d| && at + i < |buf|
    ensures XorAt(buf, at, d[..i])[at + i := XorByte(buf[at + i], d[i])] == XorAt(buf, at, d[..i + 1])
  {
  }

  /** Masking the bytes of block `n` after the first `n` whole blocks extends
      the masked prefix by those bytes. */
  lemma MaskExtend(h: Hash, seed: seq<Byte>, buf: seq<Byte>, start: nat, n: nat, c: nat)
    requires c <= DigestSize && start + DigestSize * n + c <= |buf|
    ensures XorAt(XorAt(buf, start, Mask(h, seed, DigestSize * n)), start + DigestSize * n, MaskBlock(h, seed, n)[..c])
         == XorAt(buf, start, Mask(h, seed, DigestSize * n + c))
  {
    var done := DigestSize * n;
    var lhs := XorAt(XorAt(buf, start, Mask(h, seed, done)), start + done, MaskBlock(h, seed, n)[..c]);
    var rhs := XorAt(buf, start, Mask(h, seed, done + c));
    forall k | 0 <= k < |buf|
      ensures lhs[k] == rhs[k]
    {
      if start + done <= k < start + done + c {
        MaskByteInBlock(h, seed, n, k - start - done);
      }
    }
  }

  /** One round of calculate_mgf1_and_xor before the XOR: stores the
      big-endian counter after the seed in the hash input buffer and hashes
      the seed and counter. */
  method HashRound(h: Hash, hashBuf: array<Byte>, seed: seq<Byte>, round: nat) returns (digest: Digest)
    requires |seed| + 4 <= hashBuf.Length && hashBuf[..|seed|] == seed
    requires round < 0x1_0000_0000
    modifies hashBuf
    ensures hashBuf[..|seed|] == seed
    ensures hashBuf[|seed|..|seed| + 4] == Be32(round)
    ensures digest == h(seed + Be32(round))
  {
    var counter := Be32(round);
    forall j | 0 <= j < 4 {
      hashBuf[|seed| + j] := counter[j];
    }
    assert hashBuf[..|seed| + 4] == seed + counter by {
      assert hashBuf[..|seed|] == seed;
      assert hashBuf[|seed|..|seed| + 4] == counter;
    }
    digest := h(hashBuf[..|seed| + 4]);
  }

  /** The inner loop of calculate_mgf1_and_xor: XORs the first `count`
      bytes of `digest` into `masked` from `at` on and returns the advanced
      output position. */
  method XorDigestInto(masked: array<Byte>, at: nat, digest: Digest, count: nat) returns (out: nat)
    requires count <= DigestSize && at + count <= masked.Length
    modifies masked
    ensures out == at + count
    ensures masked[..] == XorAt(old(masked[..]), at, digest[..count])
  {
    out := at;
    var i: nat := 0;
    while i < count
      invariant i <= count
      invariant out == at + i
      invariant masked[..] == XorAt(old(masked[..]), at, digest[..i])
    {
      XorAtExtend(old(masked[..]), at, digest, i);
      masked[out] := XorByte(masked[out], digest[i]);
      out := out + 1;
      i := i + 1;
    }
  }

  /** One pass of the loop of calculate_mgf1_and_xor: hashes the seed with
      the counter of round `rounds` and XORs the first `curSize` bytes of
      the digest into `masked` after the 32 * rounds bytes already masked. */
  method MaskRound(h: Hash, masked: array<Byte>, hashBuf: array<Byte>, seed: seq<Byte>,
                   start: nat, out: nat, curSize: nat, round: nat,
                   ghost before: seq<Byte>, ghost rounds: nat)
    returns (next: nat)
    requires masked != hashBuf
    requires |seed| + 4 <= hashBuf.Length && hashBuf[..|seed|] == seed
    requires round == rounds % 0x1_0000_0000
    requires curSize <= DigestSize && out == start + DigestSize * rounds
    requires out + curSize <= masked.Length == |before|
    requires masked[..] == XorAt(before, start, Mask(h, seed, DigestSize * rounds))
    modifies masked, hashBuf
    ensures hashBuf[..|seed|] == seed
    ensures next == out + curSize
    ensures masked[..] == XorAt(before, start, Mask(h, seed, DigestSize * rounds + curSize))
  {
    var curHash := HashRound(h, hashBuf, seed, round);
    assert curHash == MaskBlock(h, seed, rounds);
    ghost var done := masked[..];
    next := XorDigestInto(masked, out, curHash, curSize);
    assert masked[..] == XorAt(done, start + DigestSize * rounds, MaskBlock(h, seed, rounds)[..curSize]);
    MaskExtend(h, seed, before, start, rounds, curSize);
  }

  /** calculate_mgf1_and_xor(masked + start, maskedSize, seed, |seed|):
      panics, changing nothing, when the seed has 0xE0 bytes or more;
      otherwise XORs bytes start .. start + maskedSize of `masked` with the
      mask stream of `seed` and changes no other byte. */
  method CalculateMgf1AndXor(h: Hash, masked: array<Byte>, start: nat, maskedSize: nat, seed: seq<Byte>)
    returns (r: Outcome<()>)
    requires start + maskedSize <= masked.Length
    modifies masked
    ensures r == Panic <==> |seed| >= MaxSeedSize
    ensures r == Panic ==> masked[..] == old(masked[..])
    ensures r.Return? ==> masked[..] == XorAt(old(masked[..]), start, Mask(h, seed, maskedSize))
  {
    if |seed| >= MaxSeedSize {
      return Panic;
    }
    ghost var before := masked[..];
    var hashBuf := new Byte[HashBufferSize];
    forall i | 0 <= i < |seed| {
      hashBuf[i] := seed[i];
    }
    var round: nat := 0;
    var out: nat := start;
    var remaining: nat := maskedSize;
    ghost var rounds: nat := 0;
    while remaining > 0
      invariant out + remaining == start + maskedSize
      invariant remaining > 0 ==> out - start == DigestSize * rounds
      invariant round == rounds % 0x1_0000_0000
      invariant hashBuf[..|seed|] == seed
      invariant masked[..] == XorAt(before, start, Mask(h, seed, out - start))
    {
      var curSize: nat := remaining;
      if curSize > DigestSize {
        curSize := DigestSize;
      }
      CounterStep(rounds);
      out := MaskRound(h, masked, hashBuf, seed, start, out, curSize, round, before, rounds);
      round := (round + 1) % 0x1_0000_0000;
      remaining := remaining - curSize;
      rounds := rounds + 1;
    }
    return Return(());
  }
}
