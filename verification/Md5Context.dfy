// MD5_CTX: the 64-byte carry-over buffer and the two-word bit counter of vapps/md5.c.
module Md5Context {
  import opened Bits
  import opened Bytes
  import opened Md5Spec
  import opened Md5Machine

  // The message bytes in complete blocks.
  function Whole(n: nat): (m: nat)
    ensures m <= n < m + 64 && m % 64 == 0
  {
    n - n % 64
  }

  // The 64-bit value of the counter pair.
  function Count64(low: nat, high: nat): nat { low + W32 * high }

  // The pair counts the bits of n bytes, modulo 2^64.
  predicate Counts(low: nat, high: nat, n: nat) {
    Count64(low, high) == 8 * n % (W32 * W32)
  }

  // Both words of the count, and the position in the buffer that MD5Update reads off the low one.
  lemma LowWord(low: u32, high: u32, n: nat)
    requires Counts(low, high, n)
    ensures low == 8 * n % W32 && high == 8 * n / W32 % W32
    ensures low / 8 % 64 == n % 64
  {
    var q := 8 * n / (W32 * W32);
    assert 8 * n == W32 * W32 * q + (W32 * high + low);
    var r := W32 * q + high;
    WordsOf(8 * n, r, low);
    WordsOf(r, q, high);
    BufferIndex(n, r, low);
  }

  lemma WordsOf(x: nat, r: nat, low: u32)
    requires x == W32 * r + low
    ensures x % W32 == low && x / W32 == r
  {
  }

  lemma BufferIndex(n: nat, r: nat, low: u32)
    requires 8 * n == W32 * r + low
    ensures low / 8 % 64 == n % 64
  {
    assert n == 64 * (0x80_0000 * r) + low / 8;
  }

  // The two parts of the bit length: inputlen << 3 and inputlen >> 29.
  lemma BitLength(len: nat)
    ensures len * 8 == len * 8 % W32 + W32 * (len / 0x2000_0000)
  {
  }

  // A sum of low words has wrapped exactly when it is below a summand.
  lemma LowSum(low: u32, s: u32)
    ensures var low1 := (low + s) % W32; low + s == low1 + W32 * (if low1 < s then 1 else 0)
  {
  }

  lemma HighSum(high: u32, c: nat, t: nat)
    requires c <= 1
    ensures ((high + c) % W32 + t) % W32 == (high + c + t) % W32
  {
    if high + c == W32 {
      assert (t + W32) % W32 == t % W32;
    }
  }

  lemma CountSum(low: u32, high: u32, n: nat, len: nat, low1: u32, c: nat, t: nat)
    requires Counts(low, high, n) && low + 8 * len == low1 + W32 * (c + t)
    ensures Counts(low1, (high + c + t) % W32, n + len)
  {
    var k, h := (high + c + t) / W32, (high + c + t) % W32;
    var q := 8 * n / (W32 * W32);
    assert 8 * n == W32 * W32 * q + low + W32 * high;
    assert 8 * (n + len) == W32 * W32 * (q + k) + (low1 + W32 * h);
  }

  // Adding the bit length of len more bytes with the manual carry.
  lemma CountMore(low: u32, high: u32, n: nat, len: nat)
    requires Counts(low, high, n) && len < W32
    ensures var s := len * 8 % W32;
            var low1 := (low + s) % W32;
            var carried := if low1 < s then (high + 1) % W32 else high;
            Counts(low1, (carried + len / 0x2000_0000) % W32, n + len)
  {
    var s, t := len * 8 % W32, len / 0x2000_0000;
    var low1 := (low + s) % W32;
    var c := if low1 < s then 1 else 0;
    BitLength(len);
    LowSum(low, s);
    HighSum(high, c, t);
    CountSum(low, high, n, len, low1, c, t);
  }

  // memcpy of n bytes between different buffers.
  method Memcpy(dst: array<Byte>, doff: nat, src: array<Byte>, soff: nat, n: nat)
    requires doff + n <= dst.Length && soff + n <= src.Length && dst != src
    modifies dst
    ensures dst[..doff] == old(dst[..doff])
    ensures dst[doff..doff + n] == src[soff..soff + n]
    ensures dst[doff + n..] == old(dst[doff + n..])
  {
    forall k | 0 <= k < n {
      dst[doff + k] := src[soff + k];
    }
  }

  class Md5Ctx {
    var count0: u32 // count[0] and count[1]
    var count1: u32
    const state: array<u32>
    const buffer: array<Byte>
    ghost var seen: seq<Byte> // all bytes taken in so far

    // The state is the fold over the complete blocks seen, the buffer holds the rest.
    ghost predicate Valid()
      reads this, state, buffer
    {
      && state.Length == 4 && buffer.Length == 64
      && Counts(count0, count1, |seen|)
      && StateOf(state) == Blocks(INIT, seen[..Whole(|seen|)])
      && buffer[..|seen| % 64] == seen[Whole(|seen|)..]
    }

    // MD5Init
    constructor ()
      ensures Valid() && seen == []
      ensures fresh(state) && fresh(buffer)
    {
      count0, count1 := 0, 0;
      state := new u32[4];
      buffer := new Byte[64];
      seen := [];
      new;
      state[0], state[1], state[2], state[3] := 0x6745_2301, 0xEFCD_AB89, 0x98BA_DCFE, 0x1032_5476;
    }

    // The counting half of MD5Update.
    method CountBits(inputlen: nat) returns (index: nat)
      requires Counts(count0, count1, |seen|) && inputlen < W32
      modifies this`count0, this`count1
      ensures index == |seen| % 64 && Counts(count0, count1, |seen| + inputlen)
    {
      LowWord(count0, count1, |seen|);
      CountMore(count0, count1, |seen|, inputlen);
      index := count0 / 8 % 64;
      var shifted := inputlen * 8 % W32;
      count0 := (count0 + shifted) % W32;
      if count0 < shifted {
        count1 := (count1 + 1) % W32;
      }
      count1 := (count1 + inputlen / 0x2000_0000) % W32;
    }

    // The full-block half of MD5Update: complete the buffer, then whole blocks of the input.
    method TakeBlocks(input: array<Byte>, inputlen: nat, index: nat) returns (i: nat)
      requires state.Length == 4 && buffer.Length == 64 && input != buffer && inputlen <= input.Length
      requires index == |seen| % 64 && 64 - index <= inputlen
      requires StateOf(state) == Blocks(INIT, seen[..Whole(|seen|)])
      requires buffer[..index] == seen[Whole(|seen|)..]
      modifies state, buffer
      ensures i <= inputlen < i + 64 && (|seen| + i) % 64 == 0
      ensures StateOf(state) == Blocks(INIT, seen + input[..i])
      ensures input[..] == old(input[..])
    {
      hide Compress, Blocks;
      var partlen := 64 - index;
      Memcpy(buffer, index, input, 0, partlen);
      assert buffer[..] == seen[Whole(|seen|)..] + input[..partlen];
      BlocksSnoc(INIT, seen[..Whole(|seen|)], buffer[..]);
      assert seen[..Whole(|seen|)] + buffer[..] == seen + input[..partlen];
      assert buffer[0..0 + 64] == buffer[..];
      MD5Transform(state, buffer, 0);
      i := partlen;
      while i + 64 <= inputlen
        invariant i <= inputlen && (|seen| + i) % 64 == 0
        invariant StateOf(state) == Blocks(INIT, seen + input[..i])
      {
        BlocksSnoc(INIT, seen + input[..i], input[i..i + 64]);
        assert seen + input[..i] + input[i..i + 64] == seen + input[..i + 64];
        MD5Transform(state, input, i);
        NextBoundary(|seen| + i);
        i := i + 64;
      }
    }

    // MD5Update: take in the first inputlen bytes of input.
    method Update(input: array<Byte>, inputlen: nat)
      requires Valid() && input != buffer && inputlen <= input.Length && inputlen < W32 - 64
      modifies this, state, buffer
      ensures Valid() && seen == old(seen) + input[..inputlen]
    {
      hide Compress, Blocks, Counts, Whole;
      ghost var inp := input[..inputlen];
      ghost var msg := seen + inp;
      ghost var all := input[..];
      var index := CountBits(inputlen);
      assert input[..] == all;
      var i := 0;
      if inputlen >= 64 - index {
        i := TakeBlocks(input, inputlen, index);
        TailTaken(seen, inp, i);
        assert input[..i] == all[..i] == inp[..i];
        index := 0;
      } else {
        TailKept(seen, inp);
      }
      assert StateOf(state) == Blocks(INIT, msg[..Whole(|msg|)]);
      ghost var held := buffer[..index];
      assert held + inp[i..] == msg[Whole(|msg|)..];
      Memcpy(buffer, index, input, i, inputlen - i);
      assert input[i..inputlen] == all[i..inputlen] == inp[i..];
      assert buffer[index..index + (inputlen - i)] == inp[i..];
      assert buffer[..index + (inputlen - i)] == held + inp[i..];
      seen := msg;
    }

    // MD5Final: padding, length and digest.
    method Final(digest: array<Byte>)
      requires Valid() && digest.Length >= 16
      modifies this, state, buffer, digest
      ensures digest[..16] == Md5(old(seen))
    {
      hide Compress, Blocks, Counts, Whole, Encode, LengthBytes, Padded;
      ghost var msg := seen;
      AppendTrailer();
      PaddedBlocks(msg);
      WholeMultiple(|seen|);
      assert seen[..Whole(|seen|)] == seen;
      assert state[..4] == QuadWords(Blocks(INIT, Padded(msg)));
      MD5Encode(digest, state, 16);
    }

    // The two updates of MD5Final: padding and length.
    method AppendTrailer()
      requires Valid()
      modifies this, state, buffer
      ensures Valid() && seen == Padded(old(seen))
    {
      hide Compress, Blocks, Counts, Whole, Encode, LengthBytes;
      hide Md5Ctx.Valid;
      ghost var msg := seen;
      var index, bits := LengthBits();
      var padlen := if index < 56 then 56 - index else 120 - index;
      PadLenMeaning(|msg|);
      var padding := new Byte[64](k => if k == 0 then 0x80 else 0);
      PaddingBytes(padding[..], padlen);
      Update(padding, padlen);
      assert bits[..8] == LengthBytes(|msg|);
      Update(bits, 8);
      assert seen == Padded(msg);
    }

    // The first half of MD5Final: where the buffer stands, and the bit count as eight bytes.
    method LengthBits() returns (index: nat, bits: array<Byte>)
      requires Valid()
      ensures index == |seen| % 64
      ensures fresh(bits) && bits.Length == 8 && bits[..8] == LengthBytes(|seen|)
    {
      hide Encode;
      LowWord(count0, count1, |seen|);
      index := count0 / 8 % 64;
      ghost var low, high := 8 * |seen| % W32, 8 * |seen| / W32 % W32;
      assert count0 == low && count1 == high;
      bits := new Byte[8];
      var words := new u32[2];
      words[0], words[1] := count0, count1;
      MD5Encode(bits, words, 8);
      assert words[..2] == [low, high];
    }
  }

  // The contents of the buffers, in order.
  ghost function Joined(chunks: seq<array<Byte>>): seq<Byte>
    reads chunks
  {
    if chunks == [] then [] else Joined(chunks[..|chunks| - 1]) + chunks[|chunks| - 1][..]
  }

  // Init, one Update for every chunk, Final: the digest of the whole message, however it was cut.
  method DigestChunks(chunks: seq<array<Byte>>) returns (digest: array<Byte>)
    requires forall c :: c in chunks ==> c.Length < W32 - 64
    ensures fresh(digest) && digest.Length == 16 && digest[..] == Md5(Joined(chunks))
  {
    hide Md5, Md5Ctx.Valid;
    var ctx := new Md5Ctx();
    for i := 0 to |chunks|
      invariant ctx.Valid() && fresh(ctx) && fresh(ctx.state) && fresh(ctx.buffer)
      invariant ctx.seen == Joined(chunks[..i])
    {
      assert chunks[..i + 1][..i] == chunks[..i];
      assert chunks[i] in chunks;
      ctx.Update(chunks[i], chunks[i].Length);
    }
    assert chunks[..|chunks|] == chunks;
    digest := new Byte[16];
    ctx.Final(digest);
  }

  lemma NextBoundary(n: nat)
    requires n % 64 == 0
    ensures (n + 64) % 64 == 0
  {
  }

  lemma WholeMultiple(n: nat)
    requires n % 64 == 0
    ensures Whole(n) == n
  {
  }

  lemma PaddingBytes(p: seq<Byte>, n: nat)
    requires 1 <= n <= |p| && p[0] == 0x80 && forall k :: 1 <= k < |p| ==> p[k] == 0
    ensures p[..n] == Padding(n)
  {
    ZeroBytes(p[1..n]);
    assert p[..n] == [0x80] + p[1..n];
  }

  lemma {:induction false} ZeroBytes(z: seq<Byte>)
    requires forall k :: 0 <= k < |z| ==> z[k] == 0
    ensures z == Zeros(|z|)
  {
    if z != [] {
      ZeroBytes(z[1..]);
      assert z == [0] + z[1..];
    }
  }

  // Up to i the input completed blocks: what is left of it is the new tail.
  lemma TailTaken(seen: seq<Byte>, inp: seq<Byte>, i: nat)
    requires (|seen| + i) % 64 == 0 && i <= |inp| < i + 64
    ensures var msg := seen + inp;
            && msg[..Whole(|msg|)] == seen + inp[..i] && msg[Whole(|msg|)..] == inp[i..]
            && |msg| % 64 == |inp| - i
  {
    assert Whole(|seen + inp|) == |seen| + i;
  }

  // Too little input for a block: all of it joins the tail.
  lemma TailKept(seen: seq<Byte>, inp: seq<Byte>)
    requires |seen| % 64 + |inp| < 64
    ensures var msg := seen + inp;
            && msg[..Whole(|msg|)] == seen[..Whole(|seen|)]
            && msg[Whole(|msg|)..] == seen[Whole(|seen|)..] + inp
            && |msg| % 64 == |seen| % 64 + |inp|
  {
    assert Whole(|seen + inp|) == Whole(|seen|);
  }
}
