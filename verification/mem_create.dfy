/** The byte layout nt_mem_create computes, and the capacity nt_mem_required_size promises. */
module MemCreate {
  import opened MemLayout
  import opened MemSteps
  import opened MemFacts
  import opened MemArena

  const MEM_MIN_SIZE: nat := 128
  const MEM_MAX_SIZE: nat := 0x10_0000_0000
  const PTR_SIZE: nat := 8

  /** ALIGN8: the address rounded up to a multiple of 8. */
  function Align8(p: int): (r: int)
    ensures r % 8 == 0 && p <= r <= p + 7
  {
    (p + 7) / 8 * 8
  }

  /** What the segment must hold besides the chunks: the byte lengths of the header and of the two strings. */
  datatype Header = Header(infoSize: nat, descrLen: nat, paramLen: nat)

  /** Where the bucket pointers are, behind the header proper, when the segment starts at `base`. */
  function BucketsAt(base: nat, h: Header): nat { Align8(Align8(base) + h.infoSize) }

  function DescrAt(base: nat, h: Header): nat { BucketsAt(base, h) + PTR_SIZE * BUCKET_COUNT }

  function ParamAt(base: nat, h: Header): nat { DescrAt(base, h) + h.descrLen + 1 }

  /** Where the header ends: behind the second string. */
  function HeaderEnd(base: nat, h: Header): nat { ParamAt(base, h) + h.paramLen + 1 }

  function LoBound(base: nat, h: Header): nat { Align8(HeaderEnd(base, h)) }

  /** nt_mem_create keeps in `size` the bytes from the current address to the end of the segment. */
  function HiBound(base: nat, size: nat, h: Header): int {
    Align8(HeaderEnd(base, h) + (size - (HeaderEnd(base, h) - base)) - 8)
  }

  function TotalSize(base: nat, size: nat, h: Header): int { HiBound(base, size, h) - LoBound(base, h) - 16 }

  /** nt_mem_required_size. */
  function RequiredSize(chunksNum: nat, h: Header): int {
    7 + h.infoSize + (PTR_SIZE - 1) + PTR_SIZE * BUCKET_COUNT + h.descrLen + 1 + h.paramLen + 1
    + (7 + 8) + (7 + 8) + (chunksNum - 1) * 16 + chunksNum * (MIN_ALLOC - 1)
  }

  /** It starts from the header, the strings and room for alignment, and adds 39 bytes for each chunk. */
  lemma RequiredPerChunk(n: nat, h: Header)
    requires n > 0
    ensures RequiredSize(1, h) == h.infoSize + h.descrLen + h.paramLen + 309
    ensures RequiredSize(n + 1, h) == RequiredSize(n, h) + 39
  {
  }

  lemma DifferenceAligned(a: int, b: int)
    requires a % 8 == 0 && b % 8 == 0
    ensures (a - b - 16) % 8 == 0
  {
  }

  /** The header proper, thirty pointers of 8 bytes, both strings with a byte each at the end, and the low bound
      follow each other without overlap, and with no more room between them than alignment takes. */
  lemma HeaderParts(base: nat, h: Header)
    ensures base <= Align8(base) <= base + 7 && BucketsAt(base, h) % 8 == 0 && LoBound(base, h) % 8 == 0
    ensures Align8(base) + h.infoSize <= BucketsAt(base, h) <= Align8(base) + h.infoSize + 7
    ensures h.infoSize % 8 == 0 ==> BucketsAt(base, h) == Align8(base) + h.infoSize
    ensures DescrAt(base, h) == BucketsAt(base, h) + 240
    ensures ParamAt(base, h) == DescrAt(base, h) + h.descrLen + 1
    ensures ParamAt(base, h) + h.paramLen + 1 <= LoBound(base, h) <= ParamAt(base, h) + h.paramLen + 1 + 7
  {
  }

  /** So the low bound is behind all of them, and less than 8 bytes behind when the header is a whole number of
      words. */
  lemma HeaderEndBounds(base: nat, h: Header)
    ensures HeaderEnd(base, h) <= LoBound(base, h) <= HeaderEnd(base, h) + 7
    ensures Align8(base) + h.infoSize + 242 + h.descrLen + h.paramLen <= HeaderEnd(base, h)
    ensures HeaderEnd(base, h) <= Align8(base) + h.infoSize + 249 + h.descrLen + h.paramLen
    ensures h.infoSize % 8 == 0 ==> HeaderEnd(base, h) == Align8(base) + h.infoSize + 242 + h.descrLen + h.paramLen
    ensures base <= Align8(base) <= base + 7
  {
    hide Align8, BucketsAt, DescrAt, LoBound;
    HeaderParts(base, h);
  }

  /** Both bounds are aligned and inside the segment, the low one behind the header and both strings, the high one
      at most 8 bytes before the end of the segment. */
  lemma LayoutIsInside(base: nat, size: nat, h: Header)
    requires h.infoSize > 0 && TotalSize(base, size, h) >= MIN_ALLOC
    ensures LoBound(base, h) % 8 == 0 && HiBound(base, size, h) % 8 == 0
    ensures Align8(base) + h.infoSize + 240 + h.descrLen + 1 + h.paramLen + 1 <= LoBound(base, h)
    ensures h.infoSize % 8 == 0 ==>
              LoBound(base, h) < Align8(base) + h.infoSize + 240 + h.descrLen + 1 + h.paramLen + 1 + 8
    ensures base + size - 8 <= HiBound(base, size, h) < base + size
    ensures TotalSize(base, size, h) % 8 == 0
  {
    hide Align8, HeaderEnd;
    HeaderEndBounds(base, h);
    assert HeaderEnd(base, h) + (size - (HeaderEnd(base, h) - base)) - 8 == base + size - 8;
    DifferenceAligned(HiBound(base, size, h), LoBound(base, h));
  }

  lemma AlignedRoom(p: int, lo: int)
    requires lo % 8 == 0
    ensures Align8(p) - lo - 16 >= MIN_ALLOC <==> p >= lo + 33
  {
  }

  /** The arena has room for a chunk just when the segment reaches 41 bytes past the low bound. */
  lemma RoomExactly(base: nat, size: nat, h: Header)
    ensures TotalSize(base, size, h) >= MIN_ALLOC <==> base + size >= LoBound(base, h) + 41
  {
    hide Align8, HeaderEnd;
    var e := HeaderEnd(base, h);
    assert e + (size - (e - base)) - 8 == base + size - 8;
    AlignedRoom(base + size - 8, LoBound(base, h));
  }

  /** The smallest size of a segment that leaves room for a chunk: where the low bound of a segment
      at address 0 is, and 41 bytes more. */
  function SmallestSize(h: Header): nat { LoBound(0, h) + 41 }

  lemma AlignShift(base: nat, p: nat)
    requires base % 8 == 0
    ensures Align8(base + p) == base + Align8(p)
  {
  }

  lemma LoBoundShift(base: nat, h: Header)
    requires base % 8 == 0
    ensures LoBound(base, h) == base + LoBound(0, h)
  {
    hide Align8;
    AlignShift(base, 0);
    AlignShift(base, Align8(0) + h.infoSize);
    AlignShift(base, HeaderEnd(0, h));
  }

  /** For the aligned addresses at which segments are attached, a test of the size alone: there is room
      for a chunk if and only if the segment has the smallest size, which is more than nt_mem_create asks for. */
  lemma RoomBySize(base: nat, size: nat, h: Header)
    requires base % 8 == 0
    ensures TotalSize(base, size, h) >= MIN_ALLOC <==> size >= SmallestSize(h)
    ensures h.infoSize + 283 + h.descrLen + h.paramLen <= SmallestSize(h) <= h.infoSize + 297 + h.descrLen + h.paramLen
    ensures h.infoSize % 8 == 0 ==> SmallestSize(h) <= h.infoSize + 290 + h.descrLen + h.paramLen
  {
    hide Align8, HeaderEnd, TotalSize;
    RoomExactly(base, size, h);
    LoBoundShift(base, h);
    HeaderEndBounds(0, h);
  }

  lemma ShortestTiling(cs: seq<Chunk>, lo: nat, hi: nat)
    requires cs != [] && Tiles(cs, lo, hi)
    ensures hi - lo >= 5
  {
    TilesBounds(cs[1..], cs[0].End(), hi);
  }

  /** Every smaller size that nt_mem_create accepts fails: nothing tiles the space between the bounds. */
  lemma TooSmallSegments(base: nat, size: nat, h: Header, cs: seq<Chunk>, lo: nat, hi: nat)
    requires base % 8 == 0 && size < SmallestSize(h)
    requires cs != [] && 8 * (hi - lo) == HiBound(base, size, h) - LoBound(base, h)
    ensures !Tiles(cs, lo, hi)
  {
    hide Tiles, HiBound, LoBound;
    RoomBySize(base, size, h);
    if Tiles(cs, lo, hi) {
      ShortestTiling(cs, lo, hi);
    }
  }

  function SumOf(sizes: seq<nat>): nat {
    if sizes == [] then 0 else sizes[0] + SumOf(sizes[1..])
  }

  /** The bytes a run of allocations of these sizes needs when each splits the chunk the last one left. */
  function Demand(sizes: seq<nat>): nat {
    if sizes == [] then 0
    else ProperAllocSize(sizes[0]) + (if |sizes| == 1 then 0 else 16 + Demand(sizes[1..]))
  }

  lemma ProperBound(size: nat)
    requires size > 0
    ensures ProperAllocSize(size) <= size + 23
  {
  }

  lemma {:induction false} DemandBound(sizes: seq<nat>)
    requires sizes != [] && forall s :: s in sizes ==> s > 0
    ensures Demand(sizes) % 8 == 0 && Demand(sizes) >= MIN_ALLOC
    ensures Demand(sizes) <= SumOf(sizes) + 23 * |sizes| + 16 * (|sizes| - 1)
  {
    hide ProperAllocSize;
    assert forall s :: s in sizes[1..] ==> s in sizes;
    assert sizes[0] in sizes;
    ProperBound(sizes[0]);
    if |sizes| > 1 {
      DemandBound(sizes[1..]);
    } else {
      assert sizes[1..] == [];
    }
  }

  /** Rounding loses at most 7 bytes at the start, at the bucket pointers and at each bound. */
  lemma LayoutLoss(base: nat, size: nat, h: Header)
    ensures TotalSize(base, size, h) % 8 == 0
    ensures TotalSize(base, size, h) >= size - h.infoSize - 242 - h.descrLen - h.paramLen - 45
    ensures TotalSize(base, size, h) <= size - h.infoSize - 242 - h.descrLen - h.paramLen - 17
  {
    hide Align8, HeaderEnd;
    HeaderEndBounds(base, h);
    assert HeaderEnd(base, h) + (size - (HeaderEnd(base, h) - base)) - 8 == base + size - 8;
    DifferenceAligned(HiBound(base, size, h), LoBound(base, h));
  }

  /** Requests of one byte each need all that DemandBound allows for. */
  lemma {:induction false} LargestDemand(n: nat)
    requires n > 0
    ensures SumOf(seq(n, _ => 1)) == n && Demand(seq(n, _ => 1)) == n + 23 * n + 16 * (n - 1)
  {
    assert seq(n, _ => 1)[1..] == seq(n - 1, _ => 1);
    if n > 1 {
      LargestDemand(n - 1);
    }
  }

  /** A segment of the required size leaves enough for the demand, wherever it starts.  The
      alignment losses may eat one byte too many; that both sides are multiples of 8 makes up for it.
      No more than 27 bytes are left over from the largest demand that so many requests can make. */
  lemma CapacityBound(base: nat, h: Header, sizes: seq<nat>)
    requires sizes != [] && forall s :: s in sizes ==> s > 0
    ensures TotalSize(base, SumOf(sizes) + RequiredSize(|sizes|, h), h) >= Demand(sizes) >= MIN_ALLOC
    ensures TotalSize(base, SumOf(sizes) + RequiredSize(|sizes|, h), h)
         <= SumOf(sizes) + 23 * |sizes| + 16 * (|sizes| - 1) + 27
  {
    hide Demand, SumOf, TotalSize;
    DemandBound(sizes);
    LayoutLoss(base, SumOf(sizes) + RequiredSize(|sizes|, h), h);
  }

  /** All chunks used but the last, which is free and large enough for what is still to come. */
  ghost predicate Reserved(cs: seq<Chunk>, rest: seq<nat>)
  {
    && (forall i :: 0 <= i < |cs| - 1 ==> cs[i].used)
    && (rest != [] ==> cs != [] && !cs[|cs| - 1].used && Demand(rest) <= cs[|cs| - 1].Size())
  }

  ghost predicate Serves(cs: seq<Chunk>, c: nat, size: nat)
  {
    c != NULL && exists u :: u in cs && u.used && u.start == c && size <= u.Size()
  }

  lemma CarveReserved(cs: seq<Chunk>, rest: seq<nat>, i: nat)
    requires rest != [] && Reserved(cs, rest) && i < |cs| && !cs[i].used
    ensures i == |cs| - 1 && ProperAllocSize(rest[0]) <= cs[i].Size()
    ensures Reserved(Splice(cs, i, i + 1, Carve(cs[i], ProperAllocSize(rest[0]) / 8)), rest[1..])
  {
    assert cs[i + 1..] == [];
    if |rest| > 1 {
      assert Demand(rest) == ProperAllocSize(rest[0]) + 16 + Demand(rest[1..]);
      assert Demand(rest[1..]) >= MIN_ALLOC;
    }
  }

  /** One allocation of the run: it succeeds, keeps the reserve, and serves a new chunk. */
  lemma ServeStep(m: seq<Word>, b: seq<nat>, cs: seq<Chunk>, lists: seq<seq<Chunk>>, lo: nat, hi: nat, rest: seq<nat>,
                  i: nat)
    requires Inv(m, b, cs, lists, lo, hi, {}) && rest != [] && Reserved(cs, rest)
    requires i < |cs| && !cs[i].used
    ensures var ds := Splice(cs, i, i + 1, Carve(cs[i], ProperAllocSize(rest[0]) / 8));
            && Reserved(ds, rest[1..])
            && (cs[i].start != NULL ==> Serves(ds, cs[i].start, rest[0]))
            && (forall c, size :: Serves(cs, c, size) ==> Serves(ds, c, size) && c != cs[i].start)
  {
    hide Inv, Splice;
    var need := ProperAllocSize(rest[0]) / 8;
    CarveReserved(cs, rest, i);
    CarvedUsed(m, b, cs, lists, lo, hi, i, need);
    CarvedSize(cs, i, need);
    assert Splice(cs, i, i + 1, Carve(cs[i], need))[i] in Splice(cs, i, i + 1, Carve(cs[i], need));
  }

  lemma FreshReserve(cs: seq<Chunk>, sizes: seq<nat>)
    requires |cs| == 1 && !cs[0].used && Demand(sizes) <= cs[0].Size()
    ensures Reserved(cs, sizes)
  {
  }

  lemma ReserveFits(cs: seq<Chunk>, rest: seq<nat>)
    requires rest != [] && Reserved(cs, rest)
    ensures exists u :: u in cs && !u.used && ProperAllocSize(rest[0]) <= u.Size()
  {
  }

  /** The arena has the bounds nt_mem_create computes, and no more words than the segment. */
  ghost predicate LaidOut(a: Arena, base: nat, size: nat, h: Header) {
    && Align8(base) + 8 * a.lo == LoBound(base, h) && Align8(base) + 8 * a.hi == HiBound(base, size, h)
    && Align8(base) + 8 * a.mem.Length <= base + size
  }

  lemma FullSize(total: int, demand: int)
    requires total >= demand && demand % 8 == 0 && demand >= 0
    ensures 8 * (total / 8) >= demand
  {
  }

  lemma EighthsOf(start: int, p: int) returns (k: nat)
    requires start % 8 == 0 && p % 8 == 0 && start <= p
    ensures k == (p - start) / 8 && start + 8 * k == p
  {
    k := (p - start) / 8;
  }

  /** The layout part of nt_mem_create, for a segment at any address: one free chunk between the bounds. */
  method LayOut(base: nat, size: nat, h: Header) returns (a: Arena)
    requires h.infoSize > 0 && TotalSize(base, size, h) >= MIN_ALLOC && size <= MEM_MAX_SIZE
    ensures a.Valid() && fresh(a) && fresh(a.mem) && fresh(a.buckets)
    ensures LaidOut(a, base, size, h) && a.chunks == [Chunk(a.lo, TotalSize(base, size, h) / 8, false)]
    ensures h.infoSize + 240 + h.descrLen + 1 + h.paramLen + 1 <= 8 * a.lo
    ensures h.infoSize % 8 == 0 ==> 8 * a.lo < h.infoSize + 240 + h.descrLen + 1 + h.paramLen + 1 + 8
  {
    hide Inv, Coalesced, HeaderEnd, Align8;
    LayoutIsInside(base, size, h);
    var start, lo, hi := Align8(base), LoBound(base, h), HiBound(base, size, h);
    ghost var k0 := EighthsOf(start, lo);
    ghost var k1 := EighthsOf(start, hi);
    a := new Arena((base + size - start) / 8, (lo - start) / 8, (hi - start) / 8);
  }

  datatype Creation = Rejected | NoRoom | Created(arena: Arena)

  /** nt_mem_create, for a segment attached at `base`.  It rejects a size out of bounds.  An accepted size gives a
      valid arena just when it is the smallest size or more; for the others the source goes on all the same, and
      what it then writes is no chunk (TooSmallSegments). */
  method Create(base: nat, size: nat, h: Header) returns (r: Creation)
    requires h.infoSize > 0 && base % 8 == 0
    ensures r.Rejected? <==> size < 128 || size > 0x10_0000_0000
    ensures r.Created? <==> SmallestSize(h) <= size <= 0x10_0000_0000
    ensures r.Created? ==>
              var a := r.arena;
              && h.infoSize + 240 + h.descrLen + 1 + h.paramLen + 1 <= 8 * a.lo
              && a.Valid() && fresh(a) && fresh(a.mem) && fresh(a.buckets)
              && LaidOut(a, base, size, h) && a.chunks == [Chunk(a.lo, TotalSize(base, size, h) / 8, false)]
  {
    hide TotalSize, SmallestSize, LaidOut, Arena.Valid;
    RoomBySize(base, size, h);
    if !(MEM_MIN_SIZE <= size <= MEM_MAX_SIZE) {
      return Rejected;
    }
    if TotalSize(base, size, h) < MIN_ALLOC {
      return NoRoom;
    }
    var a := LayOut(base, size, h);
    r := Created(a);
  }

  /** The run of allocations, on an arena that is large enough for them. */
  method ServeEach(a: Arena, sizes: seq<nat>) returns (served: seq<nat>)
    requires a.Valid() && Reserved(a.chunks, sizes)
    modifies a, a.mem, a.buckets
    ensures a.Valid() && |served| == |sizes|
    ensures forall k :: 0 <= k < |sizes| ==> Serves(a.chunks, served[k], sizes[k])
    ensures forall j, k :: 0 <= j < k < |sizes| ==> served[j] != served[k]
  {
    hide Inv, Coalesced, Reserved, Serves, Demand, Carve, Splice, Kept;
    served := [];
    assert sizes[0..] == sizes;
    for k := 0 to |sizes|
      invariant a.Valid() && |served| == k
      invariant Reserved(a.chunks, sizes[k..])
      invariant forall j :: 0 <= j < k ==> Serves(a.chunks, served[j], sizes[j])
      invariant forall i, j :: 0 <= i < j < k ==> served[i] != served[j]
    {
      ghost var m, b, cs, ls := a.mem[..], a.buckets[..], a.chunks, a.lists;
      ReserveFits(cs, sizes[k..]);
      var c, i := a.Malloc(sizes[k]);
      ServeStep(m, b, cs, ls, a.lo, a.hi, sizes[k..], i);
      served := served + [c];
    }
  }

  /** The promise of nt_mem_required_size: a segment of the sizes' sum plus the required size,
      at any address, serves all the allocations, one after the other. */
  method ServeAll(base: nat, h: Header, sizes: seq<nat>) returns (a: Arena, served: seq<nat>)
    requires sizes != [] && (forall s :: s in sizes ==> s > 0) && h.infoSize > 0
    requires SumOf(sizes) + RequiredSize(|sizes|, h) <= MEM_MAX_SIZE
    ensures LaidOut(a, base, SumOf(sizes) + RequiredSize(|sizes|, h), h)
    ensures a.Valid() && |served| == |sizes|
    ensures forall k :: 0 <= k < |sizes| ==> Serves(a.chunks, served[k], sizes[k])
    ensures forall j, k :: 0 <= j < k < |sizes| ==> served[j] != served[k]
  {
    hide Inv, Coalesced, Reserved, Serves, Demand;
    var size := SumOf(sizes) + RequiredSize(|sizes|, h);
    CapacityBound(base, h, sizes);
    DemandBound(sizes);
    a := LayOut(base, size, h);
    FullSize(TotalSize(base, size, h), Demand(sizes));
    FreshReserve(a.chunks, sizes);
    served := ServeEach(a, sizes);
  }
}
