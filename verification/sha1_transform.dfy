/** SHA1Transform of nt_ptcl.c on a little-endian host. */
module Sha1Transform {
  import opened Arithmetic
  import opened Sha1Standard

  // ----- the macros -----

  /** A word as a little-endian host loads it. */
  function LoadLE(b0: bv8, b1: bv8, b2: bv8, b3: bv8): bv32 {
    (b0 as bv32) | ((b1 as bv32) << 8) | ((b2 as bv32) << 16) | ((b3 as bv32) << 24)
  }

  function Swap(x: bv32): bv32 {
    (Rotl(x, 24) & 0xFF00FF00) | (Rotl(x, 8) & 0x00FF00FF)
  }

  lemma SwapLoads(b0: bv8, b1: bv8, b2: bv8, b3: bv8)
    ensures Swap(LoadLE(b0, b1, b2, b3)) == BigEndian(b0, b1, b2, b3)
  {
  }

  /** The choice function as R0 and R1 write it. */
  function ChCode(w: bv32, x: bv32, y: bv32): bv32 { (w & (x ^ y)) ^ y }

  /** The majority function as R3 writes it. */
  function MajCode(w: bv32, x: bv32, y: bv32): bv32 { ((w | x) & y) | (w & x) }

  lemma ChCodeIsCh(w: bv32, x: bv32, y: bv32)
    ensures ChCode(w, x, y) == Ch(w, x, y)
  {
    assert (w & (x ^ y)) ^ y == (w & x) ^ (!w & y);
  }

  lemma MajCodeIsMaj(w: bv32, x: bv32, y: bv32)
    ensures MajCode(w, x, y) == Maj(w, x, y)
  {
    assert ((w | x) & y) | (w & x) == (w & x) ^ (w & y) ^ (x & y);
  }

  // ----- the schedule in sixteen words -----

  /** The last index below t that is k modulo 16. */
  function Latest(t: nat, k: nat): (j: nat)
    requires k < 16 && k < t
    ensures j < t && j % 16 == k && t <= j + 16
  {
    t - 1 - (t - 1 - k) % 16
  }

  /** Before round t the sixteen words hold the latest schedule words, each at its
      index modulo 16, and still unswapped those that no round has used. */
  ghost predicate Scheduled(l: seq<bv32>, m: Block, t: nat)
  {
    && |l| == 16
    && (forall k :: 0 <= k < 16 && k < t ==> l[k] == W(m, Latest(t, k)))
    && (forall k :: t <= k < 16 ==> Swap(l[k]) == m[k])
  }

  lemma PlusSixteen(n: nat)
    ensures (n + 16) % 16 == n % 16
  {
    ModUnique(16, n / 16 + 1, n % 16, n + 16);
  }

  lemma LatestUnique(t: nat, k: nat, j: nat)
    requires k < 16 && k < t && j < t <= j + 16 && j % 16 == k
    ensures Latest(t, k) == j
  {
    ModUnique(16, j / 16, t - 1 - j, t - 1 - k);
  }

  lemma LatestNext(t: nat, k: nat)
    requires k < 16 && k < t && k != t % 16
    ensures Latest(t + 1, k) == Latest(t, k)
  {
    hide Latest;
    var j := Latest(t, k);
    if t == j + 16 {
      PlusSixteen(j);
    }
    LatestUnique(t + 1, k, j);
  }

  /** blk0: swaps the t-th word in place. */
  method Blk0(l: array<bv32>, t: nat, ghost m: Block) returns (w: bv32)
    requires l.Length == 16 && t < 16 && Scheduled(l[..], m, t)
    modifies l
    ensures w == W(m, t) && Scheduled(l[..], m, t + 1)
  {
    ghost var old_l := l[..];
    l[t] := (Rotl(l[t], 24) & 0xFF00FF00) | (Rotl(l[t], 8) & 0x00FF00FF);
    w := l[t];
    forall k | 0 <= k < 16 && k < t + 1
      ensures l[..][k] == W(m, Latest(t + 1, k))
    {
      LatestUnique(t + 1, k, k);
      if k < t {
        LatestUnique(t, k, k);
        assert old_l[k] == W(m, k);
      }
    }
  }

  lemma SlotOf(l: seq<bv32>, m: Block, t: nat, back: nat, k: nat)
    requires 16 <= t && 1 <= back <= 16 && k < 16 && k == (t - back) % 16 && Scheduled(l, m, t)
    ensures l[k] == W(m, t - back)
  {
    hide Latest, W, Swap;
    LatestUnique(t, k, t - back);
  }

  lemma Slots(t: nat)
    requires 16 <= t
    ensures (t - 3) % 16 == (t + 13) % 16 && (t - 8) % 16 == (t + 8) % 16
    ensures (t - 14) % 16 == (t + 2) % 16 && (t - 16) % 16 == t % 16
  {
    PlusSixteen(t - 3);
    PlusSixteen(t - 8);
    PlusSixteen(t - 14);
    PlusSixteen(t - 16);
  }

  /** The four words blk combines are the four the standard names. */
  lemma NextWord(l: seq<bv32>, m: Block, t: nat)
    requires 16 <= t && Scheduled(l, m, t)
    ensures Mix(l[(t + 13) % 16], l[(t + 8) % 16], l[(t + 2) % 16], l[t % 16]) == W(m, t)
  {
    hide Scheduled, Mix, Latest;
    Slots(t);
    SlotOf(l, m, t, 3, (t + 13) % 16);
    SlotOf(l, m, t, 8, (t + 8) % 16);
    SlotOf(l, m, t, 14, (t + 2) % 16);
    SlotOf(l, m, t, 16, t % 16);
  }

  lemma NextSchedule(l: seq<bv32>, m: Block, t: nat)
    requires 16 <= t && Scheduled(l, m, t)
    ensures Scheduled(l[t % 16 := W(m, t)], m, t + 1)
  {
    hide W, Swap, Latest;
    var l' := l[t % 16 := W(m, t)];
    forall k | 0 <= k < 16
      ensures l'[k] == W(m, Latest(t + 1, k))
    {
      if k == t % 16 {
        LatestUnique(t + 1, k, t);
      } else {
        LatestNext(t, k);
      }
    }
  }

  /** blk: the next schedule word replaces the one sixteen rounds ago. */
  method Blk(l: array<bv32>, t: nat, ghost m: Block) returns (w: bv32)
    requires l.Length == 16 && 16 <= t && Scheduled(l[..], m, t)
    modifies l
    ensures w == W(m, t) && Scheduled(l[..], m, t + 1)
  {
    hide Scheduled, W, Mix;
    NextWord(l[..], m, t);
    NextSchedule(l[..], m, t);
    l[t % 16] := Mix(l[(t + 13) % 16], l[(t + 8) % 16], l[(t + 2) % 16], l[t % 16]);
    w := l[t % 16];
  }

  // ----- the rounds -----

  /** The sum each macro adds to z. */
  function Sum(z: bv32, f: bv32, s: bv32, k: bv32, r: bv32): bv32 { z + (f + s + k + r) }

  lemma Reorder(z: bv32, f: bv32, s: bv32, k: bv32, r: bv32)
    ensures Sum(z, f, s, k, r) == Sum5(r, f, z, k, s)
  {
  }

  // The new z of each macro, given the schedule word s.  R0 and R1 differ only in how they get s.

  function R01(v: bv32, w: bv32, x: bv32, y: bv32, z: bv32, s: bv32): bv32 {
    Sum(z, ChCode(w, x, y), s, 0x5A827999, Rotl(v, 5))
  }

  function R2(v: bv32, w: bv32, x: bv32, y: bv32, z: bv32, s: bv32): bv32 {
    Sum(z, Parity(w, x, y), s, 0x6ED9EBA1, Rotl(v, 5))
  }

  function R3(v: bv32, w: bv32, x: bv32, y: bv32, z: bv32, s: bv32): bv32 {
    Sum(z, MajCode(w, x, y), s, 0x8F1BBCDC, Rotl(v, 5))
  }

  function R4(v: bv32, w: bv32, x: bv32, y: bv32, z: bv32, s: bv32): bv32 {
    Sum(z, Parity(w, x, y), s, 0xCA62C1D6, Rotl(v, 5))
  }

  /** What each macro computes is what the standard's step computes, with Ch and Maj rewritten and the sum reordered. */
  lemma MacroIsStep(t: nat, v: bv32, w: bv32, x: bv32, y: bv32, z: bv32, s: bv32)
    ensures (if t < 20 then R01(v, w, x, y, z, s) else if t < 40 then R2(v, w, x, y, z, s)
             else if t < 60 then R3(v, w, x, y, z, s) else R4(v, w, x, y, z, s))
         == Step(Regs(v, w, x, y, z), t, s).a
  {
    hide Sum, Sum5, Rotl, Ch, Maj, Parity, ChCode, MajCode;
    ChCodeIsCh(w, x, y);
    MajCodeIsMaj(w, x, y);
    Reorder(z, F(t, w, x, y), s, K(t), Rotl(v, 5));
  }

  /** One macro call: with the registers in the roles v, w, x, y, z it changes z and w,
      and the standard's step then finds them in the roles z, v, w, x, y. */
  method Round(l: array<bv32>, t: nat, v: bv32, w: bv32, x: bv32, y: bv32, z: bv32, ghost m: Block)
    returns (w': bv32, z': bv32)
    requires l.Length == 16 && t < 80 && Scheduled(l[..], m, t)
    modifies l
    ensures Scheduled(l[..], m, t + 1)
    ensures Regs(z', v, w', x, y) == Step(Regs(v, w, x, y, z), t, W(m, t))
  {
    hide Scheduled, W, Rotl, F, K, Sum5, R01, R2, R3, R4;
    var s;
    if t < 16 {
      s := Blk0(l, t, m);
    } else {
      s := Blk(l, t, m);
    }
    MacroIsStep(t, v, w, x, y, z, s);
    if t < 20 {
      z' := R01(v, w, x, y, z, s);
    } else if t < 40 {
      z' := R2(v, w, x, y, z, s);
    } else if t < 60 {
      z' := R3(v, w, x, y, z, s);
    } else {
      z' := R4(v, w, x, y, z, s);
    }
    w' := Rotl(w, 30);
  }

  function RegsOf(ws: seq<bv32>): Regs
    requires |ws| == 5
  {
    Regs(ws[0], ws[1], ws[2], ws[3], ws[4])
  }

  method AddRegs(state: array<bv32>, a: bv32, b: bv32, c: bv32, d: bv32, e: bv32)
    requires state.Length == 5
    modifies state
    ensures state[..] == RegsOf(old(state[..])).Plus(Regs(a, b, c, d, e)).Words()
  {
    hide Add;
    state[0] := Add(state[0], a);
    state[1] := Add(state[1], b);
    state[2] := Add(state[2], c);
    state[3] := Add(state[3], d);
    state[4] := Add(state[4], e);
  }

  lemma NoRounds(h: Regs, m: Block)
    ensures Rounds(h, m, 0) == h
  {
  }

  lemma FiveRounds(h: Regs, m: Block, t: nat)
    ensures Rounds(h, m, t + 1) == Step(Rounds(h, m, t), t, W(m, t))
    ensures Rounds(h, m, t + 2) == Step(Rounds(h, m, t + 1), t + 1, W(m, t + 1))
    ensures Rounds(h, m, t + 3) == Step(Rounds(h, m, t + 2), t + 2, W(m, t + 2))
    ensures Rounds(h, m, t + 4) == Step(Rounds(h, m, t + 3), t + 3, W(m, t + 3))
    ensures Rounds(h, m, t + 5) == Step(Rounds(h, m, t + 4), t + 4, W(m, t + 4))
  {
  }

  /** The copy of the buffer into the block, seen as words. */
  method Load(buffer: seq<bv8>) returns (l: array<bv32>)
    requires |buffer| == 64
    ensures fresh(l) && l.Length == 16 && Scheduled(l[..], Parse(buffer), 0)
  {
    l := new bv32[16];
    for i := 0 to 16
      invariant forall k :: 0 <= k < i ==> Swap(l[k]) == Parse(buffer)[k]
    {
      l[i] := LoadLE(buffer[4 * i], buffer[4 * i + 1], buffer[4 * i + 2], buffer[4 * i + 3]);
      SwapLoads(buffer[4 * i], buffer[4 * i + 1], buffer[4 * i + 2], buffer[4 * i + 3]);
    }
  }

  /** SHA1Transform.  Its eighty macro calls rotate the registers' roles with period five;
      here each pass of the loop is one such period. */
  method Transform(state: array<bv32>, buffer: seq<bv8>)
    requires state.Length == 5 && |buffer| == 64
    modifies state
    ensures state[..] == Compress(RegsOf(old(state[..])), Parse(buffer)).Words()
  {
    hide Scheduled, W, Step, Rounds;
    ghost var m := Parse(buffer);
    var l := Load(buffer);
    var a, b, c, d, e := state[0], state[1], state[2], state[3], state[4];
    ghost var h := Regs(a, b, c, d, e);
    var t := 0;
    NoRounds(h, m);
    while t < 80
      invariant t <= 80 && t % 5 == 0 && fresh(l) && l.Length == 16
      invariant Scheduled(l[..], m, t)
      invariant Regs(a, b, c, d, e) == Rounds(h, m, t)
      invariant state[..] == h.Words()
    {
      FiveRounds(h, m, t);
      b, e := Round(l, t, a, b, c, d, e, m);
      a, d := Round(l, t + 1, e, a, b, c, d, m);
      e, c := Round(l, t + 2, d, e, a, b, c, m);
      d, b := Round(l, t + 3, c, d, e, a, b, m);
      c, a := Round(l, t + 4, b, c, d, e, a, m);
      t := t + 5;
    }
    AddRegs(state, a, b, c, d, e);
  }
}
