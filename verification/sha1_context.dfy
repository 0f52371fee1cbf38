/** The incremental hashing of nt_ptcl.c: SHA1Init, SHA1Update, SHA1Final and SHA1. */
module Sha1Context {
  import opened Sha1Standard
  import opened Sha1Transform
  import opened Arithmetic

  const WORD32: nat := 0x1_0000_0000

  /** The 32-bit test SHA1Update makes to see whether the buffer fills up. */
  predicate FillsBuffer(j: nat, len: nat) { (j + len) % WORD32 > 63 }

  /** That test is right just when the sum does not wrap around. */
  lemma FillsBufferExactly(j: nat, len: nat)
    requires j < 64 && len < WORD32
    ensures (FillsBuffer(j, len) <==> j + len > 63) <==> j + len < WORD32
  {
  }

  /** Where it is wrong: a buffer short of one byte, and the longest piece there can be. */
  lemma FillsBufferMisses()
    ensures !FillsBuffer(63, WORD32 - 1) && 63 + (WORD32 - 1) > 63
  {
  }

  /** When the test does not see the buffer fill up, the whole piece is copied behind what the buffer holds.
      That stays within its 64 bytes just when the sum does not wrap around. */
  lemma PieceFitsExactly(j: nat, len: nat)
    requires j < 64 && len < WORD32 && !FillsBuffer(j, len)
    ensures j + len <= 64 <==> j + len < WORD32
  {
  }

  /** The 32-bit test of the loop over full blocks. */
  predicate MoreBlocks(i: nat, len: nat) { (i + 63) % WORD32 < len }

  /** Behind a piece that does not make the first test wrap around, this one does not wrap around either. */
  lemma MoreBlocksExactly(j: nat, i: nat, len: nat)
    requires j < 64 && j + len < WORD32 && i <= len && (j + i) % 64 == 0
    ensures i + 63 < WORD32 && (MoreBlocks(i, len) <==> i + 63 < len)
  {
  }

  lemma NextAligned(n: nat)
    requires n % 64 == 0
    ensures (n + 64) % 64 == 0
  {
  }

  lemma SamePosition(n: nat, i: nat)
    ensures (n % 64 + i) % 64 == (n + i) % 64
  {
    ModUnique(64, n / 64 + (n % 64 + i) / 64, (n % 64 + i) % 64, n + i);
  }

  /** The 64-bit counter that the two words make. */
  function Counter(count0: nat, count1: nat): nat { count1 * WORD32 + count0 }

  lemma WrapOnce(x: nat)
    requires x < 2 * WORD32
    ensures x % WORD32 == if x >= WORD32 then x - WORD32 else x
  {
  }

  lemma HighWord(count1: nat, carry: nat, high0: nat)
    requires count1 < WORD32 && carry <= 1 && high0 < 8
    ensures ((if carry == 1 then (count1 + 1) % WORD32 else count1) + high0) % WORD32
         == if count1 + carry + high0 >= WORD32 then count1 + carry + high0 - WORD32 else count1 + carry + high0
  {
    WrapOnce(count1 + 1);
    WrapOnce(count1 + carry + high0);
    WrapOnce((count1 + carry) % WORD32 + high0);
  }

  lemma CarriedSum(count0: nat, count1: nat, low0: nat, high0: nat, low: nat, carry: nat)
    requires count1 < WORD32 && carry <= 1 && high0 < 8 && low < WORD32 && low == count0 + low0 - carry * WORD32
    ensures var sum := count1 + carry + high0;
            Counter(low, if sum >= WORD32 then sum - WORD32 else sum) ==
                (Counter(count0, count1) + Counter(low0, high0)) % (WORD32 * WORD32)
  {
    var sum := count1 + carry + high0;
    var k := if sum >= WORD32 then 1 else 0;
    ModUnique(WORD32 * WORD32, k, Counter(low, sum - k * WORD32), Counter(count0, count1) + Counter(low0, high0));
  }

  lemma CarrySplits(len: nat)
    requires len < WORD32
    ensures 8 * len == (len / 0x2000_0000) * WORD32 + (len * 8) % WORD32 && len / 0x2000_0000 < 8
  {
  }

  /** The carry test of SHA1Update adds 8 * len to the counter modulo 2^64. */
  lemma CounterAdds(count0: nat, count1: nat, len: nat)
    requires count0 < WORD32 && count1 < WORD32 && len < WORD32
    ensures var low := (count0 + (len * 8) % WORD32) % WORD32;
            var high := ((if low < count0 then (count1 + 1) % WORD32 else count1) + len / 0x2000_0000) % WORD32;
            Counter(low, high) == (Counter(count0, count1) + 8 * len) % (WORD32 * WORD32)
  {
    var low0, high0 := (len * 8) % WORD32, len / 0x2000_0000;
    CarrySplits(len);
    WrapOnce(count0 + low0);
    var low := (count0 + low0) % WORD32;
    var carry := if low < count0 then 1 else 0;
    HighWord(count1, carry, high0);
    CarriedSum(count0, count1, low0, high0, low, carry);
  }

  /** The number of data bytes in the blocks already hashed. */
  function Whole(n: nat): (r: nat)
    ensures r % 64 == 0 && r <= n && n == r + n % 64
  {
    ModUnique(64, n / 64, 0, n - n % 64);
    n - n % 64
  }

  function Quotient(n: nat, p: nat): nat
    requires p > 0
  {
    n / p
  }

  /** The k-th byte of a number, counted from the least significant. */
  function NthByte(n: nat, k: nat): bv8 { Byte(Quotient(n, Power256(k))) }

  lemma ByteAt(n: nat, k: nat)
    requires k < 4
    ensures Bytes32(n)[k] == NthByte(n, 3 - k)
  {
    hide Byte, Power256;
  }

  lemma SavedByte(count0: nat, count1: nat, i: nat)
    requires i < 8
    ensures (Bytes32(count1) + Bytes32(count0))[i] == NthByte(if i >= 4 then count0 else count1, 3 - i % 4)
  {
    hide Bytes32, NthByte;
    if i >= 4 {
      ByteAt(count0, i - 4);
    } else {
      ByteAt(count1, i);
    }
  }

  /** The eight bytes of the bit counter as SHA1Final saves them before padding. */
  method SaveCount(count0: nat, count1: nat) returns (finalcount: seq<bv8>)
    ensures finalcount == Bytes32(count1) + Bytes32(count0)
  {
    hide Bytes32, NthByte;
    finalcount := [];
    var i := 0;
    while i < 8
      invariant i <= 8 && finalcount == (Bytes32(count1) + Bytes32(count0))[..i]
    {
      SavedByte(count0, count1, i);
      finalcount := finalcount + [NthByte(if i >= 4 then count0 else count1, 3 - i % 4)];
      i := i + 1;
    }
  }

  lemma ByteAbove(a: nat, x: nat)
    ensures Byte(a * 256 + x) == Byte(x)
  {
    ModUnique(256, a + x / 256, x % 256, a * 256 + x);
  }

  /** Above the low word there are only multiples of 256. */
  lemma LowByte(a: nat, c: nat, p: nat, n: nat)
    requires p > 0 && n == a * (256 * p) + c
    ensures Byte(n / p) == Byte(c / p)
  {
    hide Byte;
    var x := c / p;
    Difference(a * 256 + x, x, p);
    assert a * 256 * p == a * (256 * p);
    ModUnique(p, a * 256 + x, c % p, n);
    ByteAbove(a, x);
  }

  /** The high word does not show in the low four bytes. */
  lemma LowWord(count0: nat, count1: nat)
    ensures Bytes32(Counter(count0, count1)) == Bytes32(count0)
  {
    hide Byte;
    assert Power256(1) == 0x100 && Power256(2) == 0x1_0000 && Power256(3) == 0x100_0000;
    var n := Counter(count0, count1);
    LowByte(count1, count0, 0x100_0000, n);
    LowByte(count1 * 0x100, count0, 0x1_0000, n);
    LowByte(count1 * 0x1_0000, count0, 0x100, n);
    LowByte(count1 * 0x100_0000, count0, 1, n);
  }

  lemma SavedCount(count0: nat, count1: nat)
    requires count0 < WORD32 && count1 < WORD32
    ensures Bytes32(count1) + Bytes32(count0) == Bytes64(Counter(count0, count1))
  {
    hide Bytes32;
    ModUnique(WORD32, count1, count0, Counter(count0, count1));
    LowWord(count0, count1);
  }

  lemma PadCount(n: nat, k: nat)
    requires k <= (55 - n) % 64
    ensures (n + 1 + k) % 64 == 56 <==> k == (55 - n) % 64
  {
  }

  lemma CounterPosition(count0: nat, count1: nat, n: nat)
    requires count0 < WORD32 && Counter(count0, count1) == (8 * n) % (WORD32 * WORD32)
    ensures (count0 / 8) % 64 == n % 64
  {
    var q := (8 * n) / (WORD32 * WORD32);
    var k := q * 0x80_0000_0000_0000 + count1 * 0x80_0000;
    assert count0 == 8 * (n - 64 * k);
    ModUnique(64, n / 64 - k, n % 64, n - 64 * k);
  }

  /** The padding loop stops after exactly the zeros the standard asks for. */
  lemma PaddingStops(count0: nat, count1: nat, n: nat, k: nat)
    requires k <= (55 - n) % 64
    requires count0 < WORD32 && Counter(count0, count1) == (8 * (n + 1 + k)) % (WORD32 * WORD32)
    ensures (count0 / 8) % 64 == 56 <==> k == (55 - n) % 64
  {
    hide Counter;
    CounterPosition(count0, count1, n + 1 + k);
    PadCount(n, k);
  }

  /** memcpy into a buffer. */
  method MemCopy(dst: array<bv8>, at: nat, src: seq<bv8>)
    requires at + |src| <= dst.Length
    modifies dst
    ensures dst[..at] == old(dst[..at]) && dst[at..at + |src|] == src && dst[at + |src|..] == old(dst[at + |src|..])
  {
    var k := 0;
    while k < |src|
      invariant k <= |src|
      invariant dst[..at] == old(dst[..at]) && dst[at + |src|..] == old(dst[at + |src|..])
      invariant forall q :: 0 <= q < k ==> dst[at + q] == src[q]
    {
      dst[at + k] := src[k];
      k := k + 1;
    }
  }

  lemma CounterOfLength(n: nat, len: nat)
    ensures ((8 * n) % (WORD32 * WORD32) + 8 * len) % (WORD32 * WORD32) == (8 * (n + len)) % (WORD32 * WORD32)
  {
  }

  /** Hashing one more block. */
  lemma HashOneMore(data: seq<bv8>, block: seq<bv8>)
    requires |data| % 64 == 0 && |block| == 64
    ensures HashBlocks(data + block) == Compress(HashBlocks(data), Parse(block))
  {
  }

  lemma RegsOfWords(h: Regs)
    ensures RegsOf(h.Words()) == h
  {
  }

  lemma FullBuffer(fed: seq<bv8>, data: seq<bv8>, all: seq<bv8>, buffer: seq<bv8>)
    requires all == fed + data && |fed| % 64 + |data| >= 64 && |buffer| == 64
    requires var j := |fed| % 64; buffer[..j] == fed[Whole(|fed|)..] && buffer[j..] == data[..64 - j]
    ensures var n := |fed| + (64 - |fed| % 64);
            && n % 64 == 0 && n <= |all|
            && HashBlocks(all[..n]) == Compress(HashBlocks(fed[..Whole(|fed|)]), Parse(buffer))
    ensures RegsOf(HashBlocks(fed[..Whole(|fed|)]).Words()) == HashBlocks(fed[..Whole(|fed|)])
  {
    hide HashBlocks, Parse, Compress;
    var w, j := Whole(|fed|), |fed| % 64;
    assert buffer == buffer[..j] + buffer[j..];
    assert all[..w + 64] == fed[..w] + buffer;
    HashOneMore(fed[..w], buffer);
    RegsOfWords(HashBlocks(fed[..w]));
  }

  lemma NextBlock(fed: seq<bv8>, data: seq<bv8>, all: seq<bv8>, i: nat)
    requires all == fed + data && (|fed| + i) % 64 == 0 && i + 64 <= |data|
    ensures HashBlocks(all[..|fed| + i + 64]) == Compress(HashBlocks(all[..|fed| + i]), Parse(data[i..i + 64]))
    ensures RegsOf(HashBlocks(all[..|fed| + i]).Words()) == HashBlocks(all[..|fed| + i])
  {
    hide HashBlocks, Parse, Compress;
    assert all[..|fed| + i + 64] == all[..|fed| + i] + data[i..i + 64];
    HashOneMore(all[..|fed| + i], data[i..i + 64]);
    RegsOfWords(HashBlocks(all[..|fed| + i]));
  }

  /** Data that does not fill the buffer is added to what it holds. */
  lemma Collected(fed: seq<bv8>, data: seq<bv8>, all: seq<bv8>, buffer: seq<bv8>)
    requires all == fed + data && |buffer| == 64 && |fed| % 64 + |data| < 64
    requires var j := |fed| % 64; buffer[..j] == fed[Whole(|fed|)..] && buffer[j..j + |data|] == data
    ensures buffer[..|all| % 64] == all[Whole(|all|)..] && all[..Whole(|all|)] == fed[..Whole(|fed|)]
  {
  }

  /** What is left after the last full block is what the buffer then holds. */
  lemma LeftOver(fed: seq<bv8>, data: seq<bv8>, all: seq<bv8>, i: nat, buffer: seq<bv8>)
    requires all == fed + data && i <= |data| < i + 64 && |buffer| == 64 && (|fed| + i) % 64 == 0
    requires buffer[..|data| - i] == data[i..]
    ensures buffer[..|all| % 64] == all[Whole(|all|)..] && Whole(|all|) == |fed| + i
  {
  }

  class Context {
    const state: array<bv32>
    var count0: nat
    var count1: nat
    const buffer: array<bv8>
    /** What has been fed since SHA1Init. */
    ghost var fed: seq<bv8>

    ghost predicate Valid()
      reads this, state, buffer
    {
      && state.Length == 5 && buffer.Length == 64
      && count0 < WORD32 && count1 < WORD32
      && Counter(count0, count1) == (8 * |fed|) % (WORD32 * WORD32)
      && state[..] == HashBlocks(fed[..Whole(|fed|)]).Words()
      && buffer[..|fed| % 64] == fed[Whole(|fed|)..]
    }

    /** SHA1Init. */
    constructor ()
      ensures Valid() && fed == [] && fresh(state) && fresh(buffer)
    {
      state := new bv32[5];
      buffer := new bv8[64];
      count0, count1 := 0, 0;
      fed := [];
      new;
      state[0] := 0x67452301;
      state[1] := 0xEFCDAB89;
      state[2] := 0x98BADCFE;
      state[3] := 0x10325476;
      state[4] := 0xC3D2E1F0;
    }

    /** The loop of SHA1Update over the full blocks of the data from position `start` on. */
    method HashWhole(data: seq<bv8>, start: nat, ghost all: seq<bv8>) returns (i: nat)
      requires state.Length == 5 && all == fed + data && start <= |data| && (|fed| + start) % 64 == 0
      requires |fed| % 64 + |data| < WORD32
      requires state[..] == HashBlocks(all[..|fed| + start]).Words()
      modifies state
      ensures start <= i <= |data| < i + 64 && (|fed| + i) % 64 == 0
      ensures state[..] == HashBlocks(all[..|fed| + i]).Words()
    {
      hide HashBlocks, Parse, Compress, MoreBlocks;
      i := start;
      SamePosition(|fed|, i);
      MoreBlocksExactly(|fed| % 64, i, |data|);
      while MoreBlocks(i, |data|)
        invariant start <= i <= |data| && (|fed| + i) % 64 == 0
        invariant MoreBlocks(i, |data|) <==> i + 63 < |data|
        invariant state[..] == HashBlocks(all[..|fed| + i]).Words()
        decreases |data| - i
      {
        NextBlock(fed, data, all, i);
        NextAligned(|fed| + i);
        Transform(state, data[i..i + 64]);
        i := i + 64;
        SamePosition(|fed|, i);
        MoreBlocksExactly(|fed| % 64, i, |data|);
      }
    }

    /** The last copy of SHA1Update: behind what the buffer holds, or, after full blocks, to its start. */
    method KeepRest(data: seq<bv8>, j: nat, i: nat, ghost all: seq<bv8>)
      requires buffer.Length == 64 && all == fed + data && i <= |data|
      requires if i == 0 then j == |fed| % 64 && j + |data| < 64 && buffer[..j] == fed[Whole(|fed|)..]
               else j == 0 && |data| < i + 64 && (|fed| + i) % 64 == 0
      modifies buffer
      ensures buffer[..|all| % 64] == all[Whole(|all|)..]
      ensures all[..Whole(|all|)] == if i == 0 then fed[..Whole(|fed|)] else all[..|fed| + i]
    {
      hide Whole;
      MemCopy(buffer, j, data[i..]);
      if i == 0 {
        Collected(fed, data, all, buffer[..]);
      } else {
        LeftOver(fed, data, all, i, buffer[..]);
      }
    }

    /** The part of SHA1Update that moves the data through the buffer and the block transform. */
    method Absorb(data: seq<bv8>, j0: nat, ghost all: seq<bv8>) returns (ok: bool)
      requires state.Length == 5 && buffer.Length == 64 && |data| < WORD32
      requires all == fed + data && j0 == |fed| % 64
      requires state[..] == HashBlocks(fed[..Whole(|fed|)]).Words() && buffer[..j0] == fed[Whole(|fed|)..]
      modifies state, buffer
      ensures ok <==> j0 + |data| < WORD32
      ensures ok ==> state[..] == HashBlocks(all[..Whole(|all|)]).Words() && buffer[..|all| % 64] == all[Whole(|all|)..]
    {
      hide HashBlocks, Parse, Compress, FillsBuffer, Whole;
      var j, len, i := j0, |data|, 0;
      FillsBufferExactly(j, len);
      if FillsBuffer(j, len) {
        i := 64 - j;
        MemCopy(buffer, j, data[..i]);
        FullBuffer(fed, data, all, buffer[..]);
        Transform(state, buffer[..]);
        i := HashWhole(data, i, all);
        j := 0;
      } else {
        PieceFitsExactly(j, len);
      }
      if j + (len - i) > 64 {
        return false;
      }
      KeepRest(data, j, i, all);
      ok := true;
    }

    /** SHA1Update.  It fails just when the 32-bit test for a full buffer wraps around: the source then copies
        more than the buffer holds, and nothing is said of what follows. */
    method Update(data: seq<bv8>) returns (ok: bool)
      requires Valid() && |data| < WORD32
      modifies this, state, buffer
      ensures ok <==> old(|fed|) % 64 + |data| < WORD32
      ensures ok ==> Valid() && fed == old(fed) + data
    {
      hide HashBlocks, Counter, Bytes64;
      var len := |data|;
      var j := count0;
      CounterAdds(count0, count1, len);
      CounterPosition(count0, count1, |fed|);
      count0 := (count0 + (len * 8) % WORD32) % WORD32;
      if count0 < j {
        count1 := (count1 + 1) % WORD32;
      }
      count1 := (count1 + len / 0x2000_0000) % WORD32;
      j := (j / 8) % 64;
      ghost var all := fed + data;
      CounterOfLength(|fed|, len);
      ok := Absorb(data, j, all);
      fed := all;
    }

    /** The loop of SHA1Final, which looks at the bit counter to see where it is in the block. */
    method PadZeros(ghost m: seq<bv8>)
      requires Valid() && fed == m + [0x80]
      modifies this, state, buffer
      ensures Valid() && fed == m + [0x80] + Zeros((55 - |m|) % 64)
    {
      hide HashBlocks, Counter;
      ghost var k := 0;
      assert fed == m + [0x80] + Zeros(0);
      PaddingStops(count0, count1, |m|, 0);
      while (count0 / 8) % 64 != 56
        invariant Valid() && k <= (55 - |m|) % 64 && fed == m + [0x80] + Zeros(k)
        invariant (count0 / 8) % 64 == 56 <==> k == (55 - |m|) % 64
        decreases (55 - |m|) % 64 - k
      {
        var ok := Update([0]);
        k := k + 1;
        assert Zeros(k) == Zeros(k - 1) + [0];
        PaddingStops(count0, count1, |m|, k);
      }
    }

    /** The bytes of the state, most significant first. */
    method Output(ghost h: Regs) returns (digest: seq<bv8>)
      requires state[..] == h.Words()
      ensures digest == Digest(h)
    {
      hide ByteOf;
      digest := [];
      var i := 0;
      while i < 20
        invariant i <= 20 && digest == Digest(h)[..i]
      {
        digest := digest + [ByteOf(state[i / 4], 3 - i % 4)];
        i := i + 1;
      }
    }

    /** The padding of SHA1Final: the count is saved before the padding changes it. */
    method PadAll()
      requires Valid()
      modifies this, state, buffer
      ensures Valid() && fed == Pad(old(fed))
    {
      hide HashBlocks, Counter, Bytes64, Bytes32;
      ghost var m := fed;
      var finalcount := SaveCount(count0, count1);
      SavedCount(count0, count1);
      var ok := Update([0x80]);
      PadZeros(m);
      ok := Update(finalcount);
    }

    /** SHA1Final: padding, the saved bit count, and the digest.  Whatever the pieces in which
        the message was fed, the digest is the standard's, for the length modulo 2^64 bits.  The context is wiped. */
    method Final() returns (digest: seq<bv8>)
      requires Valid()
      modifies this, state, buffer
      ensures digest == Sha1(old(fed))
      ensures count0 == count1 == 0
      ensures forall i :: 0 <= i < state.Length ==> state[i] == 0
      ensures forall i :: 0 <= i < buffer.Length ==> buffer[i] == 0
    {
      hide HashBlocks, Counter, Digest, Pad;
      PadAll();
      assert fed[..Whole(|fed|)] == fed;
      digest := Output(HashBlocks(fed));
      count0, count1 := 0, 0;
      forall i | 0 <= i < 5 { state[i] := 0; }
      forall i | 0 <= i < 64 { buffer[i] := 0; }
    }
  }

  /** SHA1: one byte at a time. */
  method HashMessage(message: seq<bv8>) returns (digest: seq<bv8>)
    ensures digest == Sha1(message)
  {
    hide Sha1, Counter, HashBlocks;
    var ctx := new Context();
    var i := 0;
    while i < |message|
      invariant i <= |message| && ctx.Valid() && ctx.fed == message[..i]
      invariant fresh(ctx) && fresh(ctx.state) && fresh(ctx.buffer)
    {
      var ok := ctx.Update(message[i..i + 1]);
      i := i + 1;
    }
    assert message[..i] == message;
    digest := ctx.Final();
  }

  function Joined(pieces: seq<seq<bv8>>): seq<bv8> {
    if pieces == [] then [] else Joined(pieces[..|pieces| - 1]) + pieces[|pieces| - 1]
  }

  /** The k-th piece does not make the 32-bit test wrap around where it comes. */
  ghost predicate Takes(pieces: seq<seq<bv8>>, k: nat)
    requires k < |pieces|
  {
    |Joined(pieces[..k])| % 64 + |pieces[k]| < WORD32
  }

  /** Init, any number of updates, and final: however the message is cut into pieces, the digest is that of the
      whole if and only if the test wraps around for none of them, which pieces up to 2^32 - 64 bytes ensure. */
  method HashPieces(pieces: seq<seq<bv8>>) returns (ok: bool, digest: seq<bv8>)
    requires forall k :: 0 <= k < |pieces| ==> |pieces[k]| < WORD32
    ensures ok <==> forall k :: 0 <= k < |pieces| ==> Takes(pieces, k)
    ensures ok ==> digest == Sha1(Joined(pieces))
    ensures (forall k :: 0 <= k < |pieces| ==> |pieces[k]| <= WORD32 - 64) ==> ok
  {
    hide Sha1, Counter, HashBlocks;
    var ctx := new Context();
    var k := 0;
    while k < |pieces|
      invariant k <= |pieces| && ctx.Valid() && ctx.fed == Joined(pieces[..k])
      invariant fresh(ctx) && fresh(ctx.state) && fresh(ctx.buffer)
      invariant forall q :: 0 <= q < k ==> Takes(pieces, q)
    {
      ok := ctx.Update(pieces[k]);
      if !ok {
        assert !Takes(pieces, k);
        return false, [];
      }
      k := k + 1;
      assert pieces[..k][..k - 1] == pieces[..k - 1];
    }
    assert pieces[..k] == pieces;
    ok := true;
    digest := ctx.Final();
  }
}
