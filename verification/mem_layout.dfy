/** The word-level layout of the shared-memory allocator in nt_mem.c.

    Addresses count 8-byte words from the (8-aligned) start of the segment, so
    the NULL pointer is word 0, which the allocator's own header occupies.  A
    chunk that starts at word `start` has its left size tag there, `words`
    words of allocatable memory after it, and its right size tag after those.
    Tags hold the byte size, with the top bit set while the chunk is used. */
module MemLayout {
  import opened Sequences

  type Word = w: nat | w < 0x1_0000_0000_0000_0000

  const FLG_USED: nat := 0x8000_0000_0000_0000
  const NULL: nat := 0
  const MIN_ALLOC: nat := 24
  const MAX_BUCKET_SIZE: nat := 256
  const BUCKET_COUNT: nat := (MAX_BUCKET_SIZE - MIN_ALLOC) / 8 + 1

  function BucketBySize(size: nat): (r: nat)
    ensures r < BUCKET_COUNT
  {
    if size < MIN_ALLOC then 0
    else if size < MAX_BUCKET_SIZE then (size - MIN_ALLOC) / 8
    else BUCKET_COUNT - 1
  }

  /** A chunk of the tiling: where it starts, its payload in words, its state. */
  datatype Chunk = Chunk(start: nat, words: nat, used: bool) {
    function End(): nat { start + words + 2 }

    function Size(): nat { 8 * words }

    function Tag(): nat { if used then FLG_USED + Size() else Size() }

    function Bucket(): nat { BucketBySize(Size()) }

    function Taken(): Chunk { Chunk(start, words, true) }
  }

  // ----- sizes -----

  /** Requests are rounded up to a multiple of 8, and to at least 24 bytes. */
  function ProperAllocSize(size: nat): (r: nat)
    ensures r % 8 == 0 && r >= 24 == MIN_ALLOC && r >= size
    ensures forall k: nat :: 8 * k >= size && k >= 3 ==> 8 * k >= r
  {
    if size >= MIN_ALLOC then size + (8 - size % 8) % 8 else MIN_ALLOC
  }

  /** Among chunk sizes, those under 256 bytes have a bucket each, all others share the last one, and
      buckets are ordered by size. */
  lemma BucketIsExact(a: nat, b: nat)
    requires a >= 3 && b >= 3
    ensures a < 32 ==> BucketBySize(8 * a) == a - 3 < BUCKET_COUNT - 1
    ensures a >= 32 ==> BucketBySize(8 * a) == BUCKET_COUNT - 1 == 29
    ensures BucketBySize(8 * a) == BucketBySize(8 * b) < BUCKET_COUNT - 1 ==> a == b
    ensures a <= b ==> BucketBySize(8 * a) <= BucketBySize(8 * b)
  {
  }

  predicate IsFree(tag: Word) { tag < FLG_USED }

  function ChunkSize(tag: Word): nat { if tag < FLG_USED then tag else tag - FLG_USED }

  // ----- tilings -----

  /** `cs` covers the words from `x` up to `y`, in order, without gaps. */
  ghost predicate Tiles(cs: seq<Chunk>, x: nat, y: nat)
  {
    if cs == [] then x == y
    else cs[0].start == x && cs[0].words >= 3 && Tiles(cs[1..], cs[0].End(), y)
  }

  lemma {:induction false} TilesAppend(a: seq<Chunk>, b: seq<Chunk>, x: nat, y: nat, z: nat)
    requires Tiles(a, x, y) && Tiles(b, y, z)
    ensures Tiles(a + b, x, z)
  {
    if a == [] {
      assert a + b == b;
    } else {
      TilesAppend(a[1..], b, a[0].End(), y, z);
      assert (a + b)[1..] == a[1..] + b;
    }
  }

  lemma {:induction false} TilesSplit(a: seq<Chunk>, b: seq<Chunk>, x: nat, z: nat) returns (y: nat)
    requires Tiles(a + b, x, z)
    ensures Tiles(a, x, y) && Tiles(b, y, z)
    ensures a != [] ==> y == a[|a| - 1].End()
    ensures a == [] ==> y == x
    ensures b != [] ==> y == b[0].start
    ensures b == [] ==> y == z
  {
    if a == [] {
      y := x;
      assert a + b == b;
    } else {
      assert (a + b)[1..] == a[1..] + b;
      y := TilesSplit(a[1..], b, a[0].End(), z);
    }
  }

  lemma {:induction false} TilesBounds(cs: seq<Chunk>, x: nat, y: nat)
    requires Tiles(cs, x, y)
    ensures x <= y
    ensures forall u :: u in cs ==> x <= u.start && u.End() <= y && u.words >= 3
  {
    if cs != [] {
      TilesBounds(cs[1..], cs[0].End(), y);
      assert cs == [cs[0]] + cs[1..];
    }
  }

  ghost predicate Apart(u: Chunk, v: Chunk) { u.End() <= v.start || v.End() <= u.start }

  ghost predicate Separate(cs: seq<Chunk>)
  {
    forall u, v :: u in cs && v in cs && u != v ==> Apart(u, v)
  }

  lemma {:induction false} TilesSeparate(cs: seq<Chunk>, x: nat, y: nat)
    requires Tiles(cs, x, y)
    ensures Separate(cs) && NoDup(cs)
  {
    if cs != [] {
      TilesSeparate(cs[1..], cs[0].End(), y);
      TilesBounds(cs[1..], cs[0].End(), y);
      assert cs == [cs[0]] + cs[1..];
    }
  }

  /** No two neighbours are both free. */
  ghost predicate Coalesced(cs: seq<Chunk>)
  {
    forall i, j :: 0 <= i && j == i + 1 && j < |cs| ==> cs[i].used || cs[j].used
  }

  /** Total payload words of the chunks in the given state. */
  ghost function Sum(cs: seq<Chunk>, used: bool): nat
  {
    if cs == [] then 0 else (if cs[0].used == used then cs[0].words else 0) + Sum(cs[1..], used)
  }

  lemma {:induction false} SumAppend(a: seq<Chunk>, b: seq<Chunk>, used: bool)
    ensures Sum(a + b, used) == Sum(a, used) + Sum(b, used)
  {
    if a == [] {
      assert a + b == b;
    } else {
      SumAppend(a[1..], b, used);
      assert (a + b)[1..] == a[1..] + b;
    }
  }

  /** The identity nt_mem_dump_stats relies on to count chunks. */
  lemma {:induction false} SumsCoverTheArena(cs: seq<Chunk>, x: nat, y: nat)
    requires Tiles(cs, x, y)
    ensures Sum(cs, true) + Sum(cs, false) + 2 * |cs| == y - x
  {
    if cs != [] {
      SumsCoverTheArena(cs[1..], cs[0].End(), y);
    }
  }

  // ----- tags and free lists in memory -----

  ghost predicate TagOk(m: seq<Word>, u: Chunk)
  {
    u.End() <= |m| && m[u.start] == u.Tag() && m[u.start + u.words + 1] == u.Tag()
  }

  ghost function HeadOf(l: seq<Chunk>): nat { if l == [] then NULL else l[0].start }

  ghost function PrevOf(l: seq<Chunk>, i: nat): nat
    requires i < |l|
  {
    if i == 0 then NULL else l[i - 1].start
  }

  ghost function NextOf(l: seq<Chunk>, i: nat): nat
    requires i < |l|
  {
    if i + 1 < |l| then l[i + 1].start else NULL
  }

  ghost predicate LinkOk(m: seq<Word>, l: seq<Chunk>, i: nat)
    requires i < |l|
  {
    && l[i].start + 2 < |m|
    && m[l[i].start + 1] == PrevOf(l, i)
    && m[l[i].start + 2] == NextOf(l, i)
  }

  /** The chunks of `l` form a doubly linked, NULL-terminated list. */
  ghost predicate ListOk(m: seq<Word>, l: seq<Chunk>)
  {
    forall i :: 0 <= i < |l| ==> LinkOk(m, l, i)
  }

  /** Every free chunk is on the list of its size, once, and nothing else is on any list. */
  ghost predicate Filed(cs: seq<Chunk>, lists: seq<seq<Chunk>>)
  {
    && |lists| == BUCKET_COUNT
    && (forall u :: u in cs && !u.used ==> u in lists[u.Bucket()])
    && (forall k, u :: 0 <= k < |lists| && u in lists[k] ==> u in cs && !u.used && u.Bucket() == k)
    && (forall k :: 0 <= k < |lists| ==> NoDup(lists[k]))
  }

  /** The chunk is on the list of its size, and those before it there are too small. */
  ghost predicate FirstThatFits(lists: seq<seq<Chunk>>, u: Chunk, size: nat)
  {
    && u.Bucket() < |lists|
    && exists j :: 0 <= j < |lists[u.Bucket()]| && lists[u.Bucket()][j] == u && forall q :: 0 <= q < j ==>
         lists[u.Bucket()][q].Size() < size
  }

  /** The lists with just the chunk on them. */
  ghost function FiledAlone(u: Chunk): seq<seq<Chunk>> {
    seq(BUCKET_COUNT, k => if k == u.Bucket() then [u] else [])
  }

  /** The lists with the chunk in front on that of its size. */
  ghost function Pushed(lists: seq<seq<Chunk>>, u: Chunk): seq<seq<Chunk>>
  {
    if u.Bucket() < |lists| then lists[u.Bucket() := [u] + lists[u.Bucket()]] else lists
  }

  /** The lists without the chunk on that of its size; the others there keep their order. */
  ghost function Unfiled(lists: seq<seq<Chunk>>, u: Chunk): seq<seq<Chunk>>
  {
    if u.Bucket() < |lists| then lists[u.Bucket() := Minus(lists[u.Bucket()], u)] else lists
  }

  ghost predicate ListsOk(m: seq<Word>, b: seq<nat>, lists: seq<seq<Chunk>>)
  {
    && |lists| == |b| == BUCKET_COUNT
    && (forall k :: 0 <= k < |b| ==> b[k] == HeadOf(lists[k]))
    && (forall k :: 0 <= k < |b| ==> ListOk(m, lists[k]))
  }

  /** The state of the arena between two memory writes.  Chunks that start at a
      word of `dirty` are off the lists (hence counted as used) and may carry
      any tags; all other chunks carry their own. */
  ghost predicate Inv(m: seq<Word>, b: seq<nat>, cs: seq<Chunk>, lists: seq<seq<Chunk>>,
                      lo: nat, hi: nat, dirty: set<nat>)
  {
    && 0 < lo && hi <= |m| && 8 * |m| < FLG_USED
    && Tiles(cs, lo, hi)
    && (forall u :: u in cs && u.start !in dirty ==> TagOk(m, u))
    && (forall u :: u in cs && u.start in dirty ==> u.used)
    && Filed(cs, lists)
    && ListsOk(m, b, lists)
  }

  /** Same contents in all words of all used chunks of `cs` other than those starting in `but`. */
  ghost predicate Kept(m: seq<Word>, m': seq<Word>, cs: seq<Chunk>, but: set<nat>)
  {
    && |m| == |m'|
    && forall u, p :: u in cs && u.used && u.start !in but && u.start <= p < u.End() && p < |m| ==> m'[p] == m[p]
  }

  /** The first `n` payload words of the chunk at `c`. */
  ghost function Payload(m: seq<Word>, c: nat, n: nat): seq<Word>
  {
    if c + 1 + n <= |m| then m[c + 1..c + 1 + n] else []
  }
}
