/** The shared-memory allocator of nt_mem.c as an object over its words. */
module MemArena {
  import opened MemLayout
  import opened MemSteps
  import opened MemFacts

  class Arena {
    const lo: nat
    const hi: nat
    const totalSize: nat
    const mem: array<Word>
    const buckets: array<Word>
    var usedSize: int
    var freeSize: int
    ghost var chunks: seq<Chunk>
    ghost var lists: seq<seq<Chunk>>

    ghost predicate State(dirty: set<nat>)
      reads this, mem, buckets
    {
      && mem != buckets
      && lo + 5 <= hi && totalSize + 16 == 8 * (hi - lo)
      && Inv(mem[..], buckets[..], chunks, lists, lo, hi, dirty)
    }

    ghost predicate Accounts()
      reads this
    {
      usedSize == 8 * Sum(chunks, true) && freeSize == 8 * Sum(chunks, false)
    }

    ghost predicate Valid()
      reads this, mem, buckets
    {
      State({}) && Coalesced(chunks) && Accounts()
    }

    // ----- creation -----

    /** The steps nt_mem_create and nt_mem_clear share. */
    method InitChunk()
      requires mem != buckets && 0 < lo && lo + 5 <= hi <= mem.Length && 8 * mem.Length < FLG_USED
      requires totalSize + 16 == 8 * (hi - lo)
      requires buckets.Length == BUCKET_COUNT && forall k :: 0 <= k < BUCKET_COUNT ==> buckets[k] == NULL
      modifies this, mem, buckets
      ensures Valid() && chunks == [Chunk(lo, hi - lo - 2, false)] && lists == FiledAlone(chunks[0])
    {
      hide Inv;
      var index := BucketBySize(totalSize);
      buckets[index] := lo;
      mem[lo] := totalSize;
      mem[lo + 1 + totalSize / 8] := totalSize;
      mem[lo + 1] := NULL;
      mem[lo + 2] := NULL;
      usedSize := 0;
      freeSize := totalSize;
      ghost var u := Chunk(lo, hi - lo - 2, false);
      chunks := [u];
      lists := FiledAlone(u);
      OneChunk(mem[..], buckets[..], u, lists, hi);
    }

    /** The end of nt_mem_create: a segment of `words` words becomes one free chunk from `lo` up to `hi`. */
    constructor (words: nat, lo: nat, hi: nat)
      requires 0 < lo && lo + 5 <= hi <= words && 8 * words < FLG_USED
      ensures Valid() && fresh(mem) && fresh(buckets)
      ensures this.lo == lo && this.hi == hi && mem.Length == words
      ensures chunks == [Chunk(lo, hi - lo - 2, false)] && lists == FiledAlone(chunks[0])
    {
      hide Inv;
      this.lo, this.hi, totalSize := lo, hi, 8 * (hi - lo) - 16;
      mem := new Word[words];
      buckets := new Word[BUCKET_COUNT](_ => NULL);
      usedSize, freeSize := 0, 8 * (hi - lo) - 16;
      chunks, lists := [], [];
      new;
      InitChunk();
    }

    /** nt_mem_clear: the arena is one free chunk again. */
    method Clear()
      requires Valid()
      modifies this, mem, buckets
      ensures Valid() && chunks == [Chunk(lo, hi - lo - 2, false)] && lists == FiledAlone(chunks[0])
    {
      hide Inv;
      InvGeometry(mem[..], buckets[..], chunks, lists, lo, hi, {});
      var index := 0;
      while index < BUCKET_COUNT
        invariant index <= BUCKET_COUNT == buckets.Length
        invariant forall k :: 0 <= k < index ==> buckets[k] == NULL
        invariant mem[..] == old(mem[..])
      {
        buckets[index] := NULL;
        index := index + 1;
      }
      InitChunk();
    }

    // ----- tags and links -----

    /** mem_set_chunk_size: both tags of the chunk now say that it is free. */
    method SetChunkSize(chunk: nat, size: nat, ghost i: nat, ghost dirty: set<nat>)
      requires State(dirty) && i < |chunks| && chunks[i] == Chunk(chunk, size / 8, true) && size % 8 == 0
               && chunk in dirty
      modifies mem
      ensures chunk + size / 8 + 1 < mem.Length && size < FLG_USED
      ensures State(dirty) && mem[..] == SetTags(old(mem[..]), chunk, size / 8, size)
      ensures TagOk(mem[..], Chunk(chunk, size / 8, false))
      ensures Kept(old(mem[..]), mem[..], chunks, {chunk})
    {
      hide Inv;
      assert chunks[i] in chunks;
      InvGeometry(mem[..], buckets[..], chunks, lists, lo, hi, dirty);
      ghost var m := mem[..];
      mem[chunk] := size;
      mem[chunk + 1 + size / 8] := size;
      WithinStep(m, mem[..], buckets[..], chunks, lists, lo, hi, dirty, i);
      assert dirty + {chunk} == dirty;
    }

    /** mem_set_used_chunk_size: both tags of the chunk now say that it is used. */
    method SetUsedChunkSize(chunk: nat, size: nat, ghost i: nat, ghost dirty: set<nat>)
      requires State(dirty) && i < |chunks| && chunks[i] == Chunk(chunk, size / 8, true) && size % 8 == 0
      modifies mem
      ensures chunk + size / 8 + 1 < mem.Length && size < FLG_USED
      ensures State(dirty - {chunk}) && mem[..] == SetTags(old(mem[..]), chunk, size / 8, FLG_USED + size)
      ensures Kept(old(mem[..]), mem[..], chunks, {chunk})
    {
      hide Inv;
      assert chunks[i] in chunks;
      InvGeometry(mem[..], buckets[..], chunks, lists, lo, hi, dirty);
      ghost var m := mem[..];
      mem[chunk] := FLG_USED + size;
      mem[chunk + 1 + size / 8] := FLG_USED + size;
      WithinStep(m, mem[..], buckets[..], chunks, lists, lo, hi, dirty, i);
      CleanStep(mem[..], buckets[..], chunks, lists, lo, hi, dirty + {chunk}, i);
      assert dirty + {chunk} - {chunk} == dirty - {chunk};
    }

    /** mem_link_chunk: the chunk becomes the head of the list of its size. */
    method LinkChunk(chunk: nat, ghost i: nat, ghost dirty: set<nat>)
      requires State(dirty) && i < |chunks| && chunks[i].start == chunk && chunks[i].used
      requires TagOk(mem[..], Chunk(chunk, chunks[i].words, false))
      modifies this`chunks, this`lists, mem, buckets
      ensures State(dirty - {chunk})
      ensures chunks == old(chunks)[i := Chunk(chunk, old(chunks)[i].words, false)]
      ensures lists == Pushed(old(lists), chunks[i])
      ensures Kept(old(mem[..]), mem[..], old(chunks), {chunk})
    {
      hide Inv;
      ghost var v := Chunk(chunk, chunks[i].words, false);
      InvGeometry(mem[..], buckets[..], chunks, lists, lo, hi, dirty);
      LinkStep(mem[..], buckets[..], chunks, lists, lo, hi, dirty, i, v);
      var index := BucketBySize(ChunkSize(mem[chunk]));
      var head := buckets[index];
      ghost var m, b: seq<nat> := mem[..], buckets[..];
      if head != NULL {
        mem[head + 1] := chunk;
      }
      mem[chunk + 1] := NULL;
      mem[chunk + 2] := head;
      buckets[index] := chunk;
      assert mem[..] == Prepend(m, chunk, head);
      assert buckets[..] == b[index := chunk];
      chunks, lists := chunks[i := v], lists[v.Bucket() := [v] + lists[v.Bucket()]];
    }

    /** mem_unlink_chunk: the chunk is on no list any more. */
    method UnlinkChunk(chunk: nat, ghost i: nat, ghost dirty: set<nat>)
      requires State(dirty) && i < |chunks| && chunks[i].start == chunk && !chunks[i].used
      modifies this`chunks, this`lists, mem, buckets
      ensures State(dirty + {chunk})
      ensures chunks == old(chunks)[i := old(chunks)[i].Taken()]
      ensures lists == Unfiled(old(lists), old(chunks)[i])
      ensures Kept(old(mem[..]), mem[..], old(chunks), {})
    {
      hide Inv;
      InvGeometry(mem[..], buckets[..], chunks, lists, lo, hi, dirty);
      ghost var p, n, ls := UnlinkStep(mem[..], buckets[..], chunks, lists, lo, hi, dirty, i);
      var index := BucketBySize(ChunkSize(mem[chunk]));
      var prev := mem[chunk + 1];
      var next := mem[chunk + 2];
      ghost var m, b: seq<nat> := mem[..], buckets[..];
      if prev != NULL {
        mem[prev + 2] := next;
      } else {
        buckets[index] := next;
      }
      if next != NULL {
        mem[next + 1] := prev;
      }
      assert mem[..] == Bypass(m, prev, next);
      assert buckets[..] == if prev != NULL then b else b[index := next];
      chunks, lists := chunks[i := chunks[i].Taken()], ls;
    }

    /** A chunk becomes free: mem_set_chunk_size followed, as always, by mem_link_chunk. */
    method FreeChunk(chunk: nat, size: nat, ghost i: nat, ghost dirty: set<nat>)
      requires State(dirty) && i < |chunks| && chunks[i] == Chunk(chunk, size / 8, true) && size % 8 == 0
               && chunk in dirty
      modifies this`chunks, this`lists, mem, buckets
      ensures State(dirty - {chunk})
      ensures chunks == old(chunks)[i := Chunk(chunk, size / 8, false)]
      ensures lists == Pushed(old(lists), chunks[i])
      ensures Kept(old(mem[..]), mem[..], old(chunks), {chunk})
    {
      hide Inv;
      ghost var m0 := mem[..];
      SetChunkSize(chunk, size, i, dirty);
      ghost var m1 := mem[..];
      LinkChunk(chunk, i, dirty);
      KeptTrans(m0, m1, mem[..], old(chunks), old(chunks), {chunk}, {chunk}, {chunk});
    }

    // ----- splitting -----

    /** Counts the same used words as another sequence of chunks. */
    ghost method Recut(i: nat, j: nat, ys: seq<Chunk>, dirty: set<nat>, dirty': set<nat>, x: nat, y: nat)
      requires State(dirty) && i < j <= |chunks| && ys != []
      requires Tiles(chunks[i..j], x, y) && Tiles(ys, x, y)
      requires (forall u :: u in chunks[i..j] ==> u.used) && (forall u :: u in ys ==> u.used && u.start in dirty')
      requires forall d :: d in dirty + dirty' && !(x <= d < y) ==> d in dirty && d in dirty'
      modifies this`chunks
      ensures State(dirty') && chunks == Splice(old(chunks), i, j, ys)
    {
      assert chunks == chunks[..i] + chunks[i..j] + chunks[j..];
      RecutStep(mem[..], buckets[..], chunks[..i], chunks[i..j], ys, chunks[j..], lists, lo, hi, dirty, dirty', x, y);
      chunks := Splice(chunks, i, j, ys);
    }

    /** Counts one used chunk as two. */
    ghost method RecutInTwo(i: nat, left: Chunk, right: Chunk, rest: Chunk, dirty: set<nat>)
      requires i < |chunks| && chunks[i].used && State(dirty) && dirty <= {left.start}
      requires left.used && right.used && left.words >= 3 && right.words >= 3
      requires left.start == chunks[i].start && left.End() == right.start && right.End() == chunks[i].End()
      modifies this`chunks
      ensures State({left.start, right.start}) && chunks == Splice(old(chunks), i, i + 1, [left, right])
      ensures chunks[i] == left && chunks[i + 1] == right
              && chunks[i + 1 := rest] == Splice(old(chunks), i, i + 1, [left, rest])
    {
      hide Inv;
      assert chunks[i] in chunks;
      InvGeometry(mem[..], buckets[..], chunks, lists, lo, hi, dirty);
      SpliceSecond(chunks, i, left, right, rest);
      assert chunks[i..i + 1] == [chunks[i]];
      Recut(i, i + 1, [left, right], dirty, {left.start, right.start}, left.start, right.End());
    }

    /** The chunk keeps `size` bytes; the rest, less the two tags between, becomes a free chunk. */
    method SplitChunk(chunk: nat, chunkSize: nat, size: nat, ghost i: nat, ghost dirty: set<nat>)
      requires State(dirty) && dirty <= {chunk}
      requires i < |chunks| && chunks[i] == Chunk(chunk, chunkSize / 8, true) && chunkSize % 8 == 0
      requires size % 8 == 0 && MIN_ALLOC <= size && size + 16 + MIN_ALLOC <= chunkSize
      modifies this`chunks, this`lists, mem, buckets
      ensures State({})
      ensures chunks == Splice(old(chunks), i, i + 1, Carve(old(chunks)[i], size / 8))
      ensures lists == CarvedLists(old(lists), old(chunks)[i], size / 8)
      ensures Kept(old(mem[..]), mem[..], old(chunks), {chunk})
      ensures forall p :: chunk < p <= chunk + size / 8 ==> mem[p] == old(mem[p])
    {
      hide Inv;
      ghost var m0, cs0 := mem[..], chunks;
      ghost var b0, ls0 := buckets[..], lists;
      var newChunk := chunk + 1 + size / 8 + 1;
      var newChunkSize := chunkSize - size - 16;
      ghost var left, right := Chunk(chunk, size / 8, true), Chunk(newChunk, newChunkSize / 8, true);
      ghost var rest := Chunk(newChunk, newChunkSize / 8, false);
      CarveInTwo(chunk, chunkSize, size);
      assert Carve(cs0[i], size / 8) == [left, rest];
      assert left.End() == right.start == rest.start && right.End() == cs0[i].End() && left.start == cs0[i].start;
      RecutInTwo(i, left, right, rest, dirty);
      ghost var cs1 := chunks;
      FreeChunk(newChunk, newChunkSize, i + 1, {chunk, newChunk});
      ghost var m1, cs2 := mem[..], chunks;
      assert Kept(m0, m1, cs1, {newChunk});
      assert cs2 == Splice(cs0, i, i + 1, [left, rest]);
      assert State({chunk}) by {
        assert {chunk, newChunk} - {newChunk} == {chunk};
      }
      assert chunks[i] == Chunk(chunk, size / 8, true);
      SetUsedChunkSize(chunk, size, i, {chunk});
      assert State({}) by {
        assert {chunk} - {chunk} == {};
      }
      assert mem[..] == SetTags(m1, left.start, left.words, FLG_USED + size);
      assert Kept(m1, mem[..], cs2, {left.start});
      assert Inv(m0, b0, cs0, ls0, lo, hi, dirty);
      SplitKept(m0, m1, mem[..], b0, cs0, cs1, cs2, ls0, lo, hi, dirty, i, left, right, rest, FLG_USED + size);
    }

    // ----- searching -----

    /** The search of __mem_malloc: the first non-empty exact-size bucket that is
        large enough, else the first chunk of the last bucket that fits. */
    method FindFit(size: nat) returns (chunk: nat, ghost i: nat)
      requires State({}) && size % 8 == 0 && MIN_ALLOC <= size
      ensures chunk == NULL ==> forall u :: u in chunks && !u.used ==> u.Size() < size
      ensures chunk != NULL ==> Chosen(chunks, lists, i, size) && chunks[i].start == chunk
    {
      hide Inv, FirstThatFits;
      InvGeometry(mem[..], buckets[..], chunks, lists, lo, hi, {});
      var index := BucketBySize(size);
      ghost var first := index;
      while index < BUCKET_COUNT - 1 && buckets[index] == NULL
        invariant first <= index < BUCKET_COUNT
        invariant forall k :: first <= k < index ==> lists[k] == []
      {
        HeadRead(mem[..], buckets[..], chunks, lists, lo, hi, index);
        index := index + 1;
      }
      HeadRead(mem[..], buckets[..], chunks, lists, lo, hi, index);
      chunk := buckets[index];
      ghost var j := 0;
      if index == BUCKET_COUNT - 1 {
        while chunk != NULL && ChunkSize(mem[chunk]) < size
          invariant j <= |lists[index]|
          invariant chunk == if j < |lists[index]| then lists[index][j].start else NULL
          invariant chunk == NULL ==> j == |lists[index]|
          invariant chunk != NULL ==> chunk < mem.Length && ChunkSize(mem[chunk]) == lists[index][j].Size()
          invariant forall q :: 0 <= q < j ==> lists[index][q].Size() < size
          decreases |lists[index]| - j
        {
          NextRead(mem[..], buckets[..], chunks, lists, lo, hi, index, j);
          chunk := mem[chunk + 2];
          j := j + 1;
        }
      }
      i := BestFit(mem[..], buckets[..], chunks, lists, lo, hi, size, index, j);
    }

    // ----- allocating -----

    /** Either uses the full chunk or splits it, and books what it takes. */
    method SettleChunk(chunk: nat, chunkSize: nat, size: nat, ghost i: nat)
      requires State({chunk}) && size % 8 == 0 && MIN_ALLOC <= size <= chunkSize && chunkSize % 8 == 0
      requires i < |chunks| && chunks[i] == Chunk(chunk, chunkSize / 8, true)
      modifies this, mem, buckets
      ensures State({})
      ensures chunks == Splice(old(chunks), i, i + 1, Carve(old(chunks)[i], size / 8))
      ensures lists == CarvedLists(old(lists), old(chunks)[i], size / 8)
      ensures usedSize == old(usedSize) + if chunkSize < size + 40 then chunkSize else size
      ensures freeSize == old(freeSize) - chunkSize + if chunkSize < size + 40 then 0 else chunkSize - size - 16
      ensures Kept(old(mem[..]), mem[..], old(chunks), {chunk})
      ensures forall p :: chunk < p <= chunk + size / 8 ==> mem[p] == old(mem[p])
    {
      hide Inv;
      if chunkSize < size + 16 + MIN_ALLOC {
        usedSize := usedSize + chunkSize;
        freeSize := freeSize - chunkSize;
        SetUsedChunkSize(chunk, chunkSize, i, {chunk});
        assert {chunk} - {chunk} == {};
        SpliceSame(chunks, i);
        assert Carve(chunks[i], size / 8) == [chunks[i]];
      } else {
        var newChunkSize := chunkSize - size - 16;
        usedSize := usedSize + size;
        freeSize := freeSize - chunkSize;
        freeSize := freeSize + newChunkSize;
        SplitChunk(chunk, chunkSize, size, i, {chunk});
      }
    }

    /** Takes a free chunk for a request of `size` bytes: all of it, or its low end. */
    method TakeChunk(chunk: nat, size: nat, ghost i: nat)
      requires State({}) && Accounts() && size % 8 == 0 && MIN_ALLOC <= size
      requires i < |chunks| && chunks[i].start == chunk && !chunks[i].used && size <= chunks[i].Size()
      modifies this, mem, buckets
      ensures State({}) && Accounts()
      ensures chunks == Splice(old(chunks), i, i + 1, Carve(old(chunks)[i], size / 8))
      ensures lists == CarvedLists(Unfiled(old(lists), old(chunks)[i]), old(chunks)[i], size / 8)
      ensures Kept(old(mem[..]), mem[..], old(chunks), {})
    {
      hide Inv;
      ghost var m0, b0, cs0, ls0 := mem[..], buckets[..], chunks, lists;
      TagRead(m0, b0, cs0, ls0, lo, hi, {}, cs0[i]);
      var chunkSize := ChunkSize(mem[chunk]);
      CarveSums(cs0, i, size / 8);
      UnlinkChunk(chunk, i, {});
      assert State({chunk}) by {
        assert {} + {chunk} == {chunk};
      }
      assert chunks[i] == Chunk(chunk, chunkSize / 8, true);
      ghost var m1, cs1 := mem[..], chunks;
      SettleChunk(chunk, chunkSize, size, i);
      CarveTaken(cs0, i, size / 8);
      TakeKept(m0, m1, mem[..], b0, cs0, ls0, lo, hi, i);
    }

    /** __mem_malloc.  It fails just when no free chunk is large enough, and then changes nothing;
        the chunk it takes is a smallest one that fits if one under 256 bytes fits, and the first that fits on its
        list; what is left over is cut off if it can be a chunk. */
    method Malloc(size: nat) returns (chunk: nat, ghost i: nat)
      requires Valid()
      modifies this, mem, buckets
      ensures Valid()
      ensures chunk == NULL <==> forall u :: u in old(chunks) && !u.used ==> u.Size() < ProperAllocSize(size)
      ensures chunk == NULL ==> unchanged(this) && unchanged(mem) && unchanged(buckets)
      ensures chunk != NULL ==>
                && Chosen(old(chunks), old(lists), i, ProperAllocSize(size)) && old(chunks)[i].start == chunk
                && chunks == Allotted(old(chunks), i, ProperAllocSize(size))
                && lists == AllottedLists(old(lists), old(chunks), i, ProperAllocSize(size))
      ensures Kept(old(mem[..]), mem[..], old(chunks), {})
    {
      hide Inv, FirstThatFits;
      var need := ProperAllocSize(size);
      chunk, i := FindFit(need);
      if chunk == NULL {
        return;
      }
      assert chunks[i] in chunks;
      CarveCoalesced(chunks, i, need / 8);
      TakeChunk(chunk, need, i);
    }

    // ----- freeing -----

    /** Counts neighbouring used chunks as one. */
    ghost method Fuse(a: nat, b: nat, dirty: set<nat>)
      requires State(dirty) && a < b <= |chunks| && (forall u :: u in chunks[a..b] ==> u.used)
      requires forall d :: d in dirty ==> chunks[a].start <= d < chunks[b - 1].End()
      modifies this`chunks
      ensures Merged(old(chunks), a, b).words >= 3
      ensures State({old(chunks)[a].start}) && chunks == Splice(old(chunks), a, b, [Merged(old(chunks), a, b).Taken()])
      ensures chunks[a] == Merged(old(chunks), a, b).Taken()
    {
      TilesMiddle(chunks, a, b, lo, hi);
      var u := Merged(chunks, a, b).Taken();
      Recut(a, b, [u], dirty, {u.start}, u.start, u.End());
    }

    /** Takes the free chunk after a used one off its list, and counts the two as one. */
    method FuseNext(chunk: nat, nextChunk: nat, ghost i: nat)
      requires State({}) && i + 1 < |chunks| && chunks[i].used && !chunks[i + 1].used
      requires chunk == chunks[i].start && nextChunk == chunks[i + 1].start
      modifies this`chunks, this`lists, mem, buckets
      ensures chunks == Splice(old(chunks), i, i + 2, [Merged(old(chunks), i, i + 2).Taken()])
      ensures lists == Unfiled(old(lists), old(chunks)[i + 1])
      ensures State({chunk}) && chunks[i] == Merged(old(chunks), i, i + 2).Taken()
      ensures Kept(old(mem[..]), mem[..], old(chunks), {})
    {
      hide Inv, Tiles;
      ghost var cs0 := chunks;
      TilesOf(mem[..], buckets[..], cs0, lists, lo, hi);
      FuseShape(cs0, lo, hi, i, i, i + 2);
      UnlinkChunk(nextChunk, i + 1, {});
      Fuse(i, i + 2, {} + {nextChunk});
    }

    method FusePrev(chunk: nat, prevChunk: nat, ghost i: nat)
      requires State({}) && 0 < i < |chunks| && chunks[i].used && !chunks[i - 1].used
      requires chunk == chunks[i].start && prevChunk == chunks[i - 1].start
      modifies this`chunks, this`lists, mem, buckets
      ensures chunks == Splice(old(chunks), i - 1, i + 1, [Merged(old(chunks), i - 1, i + 1).Taken()])
      ensures lists == Unfiled(old(lists), old(chunks)[i - 1])
      ensures State({prevChunk}) && chunks[i - 1] == Merged(old(chunks), i - 1, i + 1).Taken()
      ensures Kept(old(mem[..]), mem[..], old(chunks), {})
    {
      hide Inv, Tiles;
      ghost var cs0 := chunks;
      TilesOf(mem[..], buckets[..], cs0, lists, lo, hi);
      FuseShape(cs0, lo, hi, i, i - 1, i + 1);
      UnlinkChunk(prevChunk, i - 1, {});
      Fuse(i - 1, i + 1, {} + {prevChunk});
    }

    method FuseBoth(chunk: nat, prevChunk: nat, nextChunk: nat, ghost i: nat)
      requires State({}) && 0 < i < |chunks| - 1 && chunks[i].used && !chunks[i - 1].used && !chunks[i + 1].used
      requires chunk == chunks[i].start && prevChunk == chunks[i - 1].start && nextChunk == chunks[i + 1].start
      modifies this`chunks, this`lists, mem, buckets
      ensures chunks == Splice(old(chunks), i - 1, i + 2, [Merged(old(chunks), i - 1, i + 2).Taken()])
      ensures lists == Unfiled(Unfiled(old(lists), old(chunks)[i - 1]), old(chunks)[i + 1])
      ensures State({prevChunk}) && chunks[i - 1] == Merged(old(chunks), i - 1, i + 2).Taken()
      ensures Kept(old(mem[..]), mem[..], old(chunks), {})
    {
      hide Inv, Tiles;
      ghost var m0, cs0 := mem[..], chunks;
      TilesOf(mem[..], buckets[..], cs0, lists, lo, hi);
      FuseShape(cs0, lo, hi, i, i - 1, i + 2);
      UnlinkChunk(prevChunk, i - 1, {});
      ghost var m1 := mem[..];
      UnlinkChunk(nextChunk, i + 1, {} + {prevChunk});
      KeptAfterTaking(m0, m1, mem[..], cs0, i - 1);
      Fuse(i - 1, i + 2, {} + {prevChunk} + {nextChunk});
    }

    /** Merges a used chunk with its free neighbours, in the three ways __mem_free distinguishes. */
    method FuseFree(chunk: nat, chunkSize: nat, ghost i: nat, ghost a: nat, ghost e: nat)
      returns (start: nat, size: nat)
      requires State({}) && i < |chunks| && chunks[i] == Chunk(chunk, chunkSize / 8, true) && chunkSize % 8 == 0
      requires a == FirstFree(chunks, i) && e == LastFree(chunks, i)
      modifies this`chunks, this`lists, this`freeSize, mem, buckets
      ensures State({start}) && chunks == Splice(old(chunks), a, e, [Chunk(start, size / 8, true)])
      ensures Merged(old(chunks), a, e) == Chunk(start, size / 8, false) && size % 8 == 0
      ensures lists == UnfiledAround(old(lists), old(chunks), i)
      ensures freeSize == old(freeSize) + 16 * (e - a - 1)
      ensures Kept(old(mem[..]), mem[..], old(chunks), {})
    {
      hide Inv, Splice, Merged, Unfiled, Kept;
      NeighbourTags(mem[..], buckets[..], chunks, lists, lo, hi, i);
      FreedSize(mem[..], buckets[..], chunks, lists, lo, hi, i);
      start, size := chunk, chunkSize;
      var nextChunk := chunk + 1 + chunkSize / 8 + 1;
      var prevFree := lo < chunk && IsFree(mem[chunk - 1]);
      var nextFree := nextChunk < hi && IsFree(mem[nextChunk]);
      if prevFree && nextFree {
        freeSize := freeSize + 32;
        start := chunk - 1 - ChunkSize(mem[chunk - 1]) / 8 - 1;
        size := chunkSize + 32 + ChunkSize(mem[start]) + ChunkSize(mem[nextChunk]);
        assert size == 8 * Merged(chunks, a, e).words;
        FuseBoth(chunk, start, nextChunk, i);
      } else if prevFree {
        freeSize := freeSize + 16;
        start := chunk - 1 - ChunkSize(mem[chunk - 1]) / 8 - 1;
        size := chunkSize + 16 + ChunkSize(mem[start]);
        assert size == 8 * Merged(chunks, a, e).words;
        FusePrev(chunk, start, i);
      } else if nextFree {
        freeSize := freeSize + 16;
        size := chunkSize + 16 + ChunkSize(mem[nextChunk]);
        assert size == 8 * Merged(chunks, a, e).words;
        FuseNext(chunk, nextChunk, i);
      } else {
        ghost var m0 := mem[..];
        FuseAlone(m0, buckets[..], chunks, lists, lo, hi, i);
        Fuse(i, i + 1, {});
        assert mem[..] == m0;
      }
    }

    /** __mem_free: the chunk and its free neighbours become one free chunk. */
    method Free(ptr: nat, ghost i: nat)
      requires Valid()
      requires i < |chunks| && chunks[i].start + 1 == ptr && chunks[i].used
      modifies this, mem, buckets
      ensures Valid()
      ensures chunks == Freed(old(chunks), i) && lists == FreedLists(old(lists), old(chunks), i)
      ensures Kept(old(mem[..]), mem[..], old(chunks), {ptr - 1})
    {
      hide Inv, Kept, Coalesced, Splice, Merged;
      ghost var m0, b0, cs0, ls0 := mem[..], buckets[..], chunks, lists;
      ghost var a, e := FirstFree(cs0, i), LastFree(cs0, i);
      NeighbourTags(m0, b0, cs0, ls0, lo, hi, i);
      FreedSums(m0, b0, cs0, ls0, lo, hi, i);
      FreedCoalesced(cs0, i);
      var chunk := ptr - 1;
      var chunkSize := ChunkSize(mem[chunk]);
      usedSize := usedSize - chunkSize;
      freeSize := freeSize + chunkSize;
      chunk, chunkSize := FuseFree(chunk, chunkSize, i, a, e);
      ghost var m1 := mem[..];
      SpliceAt(cs0, a, e, Merged(cs0, a, e).Taken(), Merged(cs0, a, e));
      FreeChunk(chunk, chunkSize, a, {chunk});
      assert State({}) by {
        assert {chunk} - {chunk} == {};
      }
      FreedKept(m0, m1, mem[..], b0, cs0, ls0, lo, hi, i);
    }

    // ----- resizing -----

    /** memcpy into the payload of a used chunk. */
    method CopyIn(chunk: nat, data: seq<Word>, ghost i: nat)
      requires State({}) && i < |chunks| && chunks[i].start == chunk && chunks[i].used && |data| <= chunks[i].words
      modifies mem
      ensures State({}) && Kept(old(mem[..]), mem[..], chunks, {chunk})
      ensures chunk + |data| < mem.Length && mem[chunk + 1..chunk + 1 + |data|] == data
    {
      hide Inv;
      InvGeometry(mem[..], buckets[..], chunks, lists, lo, hi, {});
      assert chunks[i] in chunks;
      ghost var m0 := mem[..];
      var q := 0;
      while q < |data|
        invariant q <= |data|
        invariant forall p :: 0 <= p < mem.Length && !(chunk < p <= chunk + q) ==> mem[p] == m0[p]
        invariant forall p :: 0 <= p < q ==> mem[chunk + 1 + p] == data[p]
      {
        mem[chunk + 1 + q] := data[q];
        q := q + 1;
      }
      PayloadStep(m0, mem[..], buckets[..], chunks, lists, lo, hi, i);
    }

    /** The local reading of the tags around a used chunk with which __mem_realloc begins. */
    ghost predicate Around(i: nat, chunk: nat, chunkSize: nat, nextChunk: nat, nextFree: bool)
      reads this, mem
    {
      && i < |chunks| && chunks[i] == Chunk(chunk, chunkSize / 8, true) && chunkSize % 8 == 0
      && nextChunk == chunks[i].End()
      && (nextFree <==> i + 1 < |chunks| && !chunks[i + 1].used)
      && (nextFree ==>
            && nextChunk < mem.Length && chunks[i + 1].start == nextChunk
            && ChunkSize(mem[nextChunk]) == chunks[i + 1].Size())
    }

    /** The path of __mem_realloc that gives words back to the free next chunk. */
    method ShrinkMerge(chunk: nat, chunkSize: nat, size: nat, nextChunk: nat, ghost i: nat)
      requires State({}) && Accounts() && Coalesced(chunks) && Around(i, chunk, chunkSize, nextChunk, true)
      requires size % 8 == 0 && MIN_ALLOC <= size && size + 40 <= chunkSize
      modifies this, mem, buckets
      ensures Valid()
      ensures chunks == Recarved(old(chunks), i, size / 8)
              && lists == RecarvedLists(old(lists), old(chunks), i, size / 8)
      ensures Kept(old(mem[..]), mem[..], old(chunks), {chunk})
      ensures Payload(mem[..], chunk, size / 8) == Payload(old(mem[..]), chunk, size / 8)
    {
      hide Inv, Tiles, Coalesced, Splice, Merged, Carve, Kept;
      ghost var m0, b0, cs0, ls0 := mem[..], buckets[..], chunks, lists;
      TilesOf(m0, b0, cs0, ls0, lo, hi);
      RecarveShape(cs0, lo, hi, i, size / 8);
      assert chunkSize == 8 * chunks[i].words && size == 8 * (size / 8) && size / 8 + 5 <= chunks[i].words;
      usedSize := usedSize - (chunkSize - size);
      freeSize := freeSize + (chunkSize - size);
      var whole := chunkSize + 16 + ChunkSize(mem[nextChunk]);
      FuseNext(chunk, nextChunk, i);
      ghost var m1 := mem[..];
      SplitChunk(chunk, whole, size, i, {chunk});
      FusedKept(m0, m1, mem[..], b0, cs0, ls0, lo, hi, i, size / 8);
    }

    /** The path of __mem_realloc that makes a new free chunk of the words it gives back. */
    method ShrinkSplit(chunk: nat, chunkSize: nat, size: nat, nextChunk: nat, ghost i: nat)
      requires State({}) && Accounts() && Coalesced(chunks) && Around(i, chunk, chunkSize, nextChunk, false)
      requires size % 8 == 0 && MIN_ALLOC <= size && size + 40 <= chunkSize
      modifies this, mem, buckets
      ensures Valid()
      ensures chunks == Recarved(old(chunks), i, size / 8)
              && lists == RecarvedLists(old(lists), old(chunks), i, size / 8)
      ensures Kept(old(mem[..]), mem[..], old(chunks), {chunk})
      ensures Payload(mem[..], chunk, size / 8) == Payload(old(mem[..]), chunk, size / 8)
    {
      hide Inv, Tiles, Coalesced, Splice, Merged, Carve, Kept;
      ghost var cs0, n := chunks, size / 8;
      assert chunkSize == 8 * cs0[i].words && size == 8 * n && n + 5 <= cs0[i].words;
      TilesOf(mem[..], buckets[..], chunks, lists, lo, hi);
      RecarveShape(chunks, lo, hi, i, n);
      usedSize := usedSize - (chunkSize - size);
      freeSize := freeSize + (chunkSize - size - 16);
      SplitChunk(chunk, chunkSize, size, i, {});
      assert chunks == Recarved(cs0, i, n);
      assert usedSize == 8 * Sum(chunks, true) && freeSize == 8 * Sum(chunks, false);
    }

    /** The in-place path of __mem_realloc that takes in the free next chunk. */
    method Grow(chunk: nat, chunkSize: nat, size: nat, nextChunk: nat, ghost i: nat)
      requires State({}) && Accounts() && Coalesced(chunks) && Around(i, chunk, chunkSize, nextChunk, true)
      requires size % 8 == 0 && MIN_ALLOC <= size && chunkSize < size <= chunkSize + 16 + chunks[i + 1].Size()
      modifies this, mem, buckets
      ensures Valid()
      ensures chunks == Recarved(old(chunks), i, size / 8)
              && lists == RecarvedLists(old(lists), old(chunks), i, size / 8)
      ensures Kept(old(mem[..]), mem[..], old(chunks), {chunk})
      ensures Payload(mem[..], chunk, chunkSize / 8) == Payload(old(mem[..]), chunk, chunkSize / 8)
    {
      hide Inv, Tiles, Coalesced, Splice, Merged, Carve, Kept;
      ghost var m0, b0, cs0, ls0 := mem[..], buckets[..], chunks, lists;
      TilesOf(m0, b0, cs0, ls0, lo, hi);
      RecarveShape(cs0, lo, hi, i, size / 8);
      usedSize := usedSize - chunkSize;
      freeSize := freeSize + (chunkSize + 16);
      var whole := chunkSize + 16 + ChunkSize(mem[nextChunk]);
      FuseNext(chunk, nextChunk, i);
      ghost var m1 := mem[..];
      SettleChunk(chunk, whole, size, i);
      FusedKept(m0, m1, mem[..], b0, cs0, ls0, lo, hi, i, size / 8);
    }

    /** The moving path of __mem_realloc, once __mem_malloc has found a new chunk. */
    method MoveTo(chunk: nat, chunkSize: nat, newChunk: nat, ghost i: nat, ghost k: nat) returns (ghost j: nat)
      requires Valid() && i < |chunks| && k < |chunks| && i != k
      requires chunks[i] == Chunk(chunk, chunkSize / 8, true) && chunkSize % 8 == 0
      requires chunks[k].used && chunks[k].start == newChunk && chunkSize / 8 <= chunks[k].words
      modifies this, mem, buckets
      ensures Valid() && chunks == Freed(old(chunks), i) && lists == FreedLists(old(lists), old(chunks), i)
      ensures j < |chunks| && chunks[j] == old(chunks)[k]
      ensures Kept(old(mem[..]), mem[..], old(chunks), {chunk, newChunk})
      ensures Payload(mem[..], newChunk, chunkSize / 8) == Payload(old(mem[..]), chunk, chunkSize / 8)
    {
      hide Inv, CarvedLists, Unfiled, FreedLists, FirstThatFits, Coalesced, Accounts, Freed, Kept;
      ghost var m0, b0, cs0, ls0 := mem[..], buckets[..], chunks, lists;
      InvGeometry(m0, b0, cs0, ls0, lo, hi, {});
      assert cs0[i] in cs0 && cs0[k] in cs0;
      CopyIn(newChunk, mem[chunk + 1..chunk + 1 + chunkSize / 8], k);
      ghost var m1 := mem[..];
      Free(chunk + 1, i);
      FreedUsed(m0, b0, cs0, ls0, lo, hi, i);
      j :| 0 <= j < |chunks| && chunks[j] == cs0[k];
      MoveKept(m0, m1, mem[..], b0, cs0, ls0, lo, hi, i, k, chunkSize / 8);
    }

    /** The moving path of __mem_realloc: a new chunk, a copy, and the old chunk freed. */
    method Move(chunk: nat, chunkSize: nat, size: nat, ghost i: nat) returns (newChunk: nat, ghost j: nat)
      requires Valid() && i < |chunks| && chunks[i] == Chunk(chunk, chunkSize / 8, true) && chunkSize % 8 == 0
      requires size % 8 == 0 && MIN_ALLOC <= size && chunkSize < size
      modifies this, mem, buckets
      ensures Valid()
      ensures newChunk == NULL <==> forall u :: u in old(chunks) && !u.used ==> u.Size() < size
      ensures newChunk == NULL ==> unchanged(this) && unchanged(mem) && unchanged(buckets)
      ensures newChunk != NULL ==>
                && (exists k: nat :: TakenThenFreed(old(chunks), old(lists), i, size, k, chunks, lists)
                                     && old(chunks)[k].start == newChunk)
                && Resized(old(chunks), i, chunks, j) && chunks[j].start == newChunk && size <= chunks[j].Size()
                && Kept(old(mem[..]), mem[..], old(chunks), {chunk})
                && Payload(mem[..], newChunk, chunkSize / 8) == Payload(old(mem[..]), chunk, chunkSize / 8)
    {
      hide Inv, CarvedLists, Unfiled, FreedLists, FirstThatFits, Coalesced, Accounts, Kept, Carve, Splice, Freed,
           Payload;
      ghost var m0, b0, cs0, ls0 := mem[..], buckets[..], chunks, lists;
      newChunk, j := Malloc(size);
      if newChunk == NULL {
        return;
      }
      ghost var m1, b1, cs1, ls1, k := mem[..], buckets[..], chunks, lists, j;
      CarvedUsed(m0, b0, cs0, ls0, lo, hi, k, size / 8);
      CarvedSize(cs0, k, size / 8);
      ghost var ni := Shifted(cs0, k, i, size);
      j := MoveTo(chunk, chunkSize, newChunk, ni, k);
      assert TakenThenFreed(cs0, ls0, i, size, k, chunks, lists);
      FreedUsed(m1, b1, cs1, ls1, lo, hi, ni);
      PayloadKept(m0, m1, cs0, i, chunkSize / 8);
      KeptTrans(m0, m1, mem[..], cs0, cs1, {}, {chunk, newChunk}, {chunk});
    }

    /** __mem_malloc when there is room: it does not fail, and what it gives is a new used chunk. */
    method MallocInRoom(size: nat) returns (chunk: nat, ghost k: nat)
      requires Valid() && size % 8 == 0 && MIN_ALLOC <= size && FitsSomewhere(chunks, size)
      modifies this, mem, buckets
      ensures Valid() && chunk != NULL && Chosen(old(chunks), old(lists), k, size) && old(chunks)[k].start == chunk
      ensures chunks == Allotted(old(chunks), k, size) && lists == AllottedLists(old(lists), old(chunks), k, size)
      ensures k < |chunks| && chunks[k].used && chunks[k].start == chunk && size <= chunks[k].Size()
      ensures forall u: Chunk :: u.used ==> (u in chunks <==> u == chunks[k] || u in old(chunks))
      ensures forall u :: u in old(chunks) && u.used ==> u.start != chunk
      ensures Kept(old(mem[..]), mem[..], old(chunks), {})
    {
      hide Inv, FirstThatFits, Coalesced, Accounts, Kept, Carve, Splice, CarvedLists, Unfiled;
      ghost var m, b, cs, ls := mem[..], buckets[..], chunks, lists;
      chunk, k := Malloc(size);
      if chunk == NULL {
        assert false;
      }
      CarvedUsed(m, b, cs, ls, lo, hi, k, size / 8);
      CarvedSize(cs, k, size / 8);
    }

    /** The last path of __mem_realloc: the contents wait in a copy while the chunk is freed.
        That __mem_malloc then succeeds is proved here, so the source's abort is unreachable. */
    method ViaCopy(chunk: nat, chunkSize: nat, size: nat, ghost i: nat) returns (newChunk: nat, ghost j: nat)
      requires Valid() && i < |chunks| && chunks[i] == Chunk(chunk, chunkSize / 8, true) && chunkSize % 8 == 0
      requires size % 8 == 0 && MIN_ALLOC <= size
               && chunkSize < size <= Merged(chunks, FirstFree(chunks, i), LastFree(chunks, i)).Size()
      modifies this, mem, buckets
      ensures Valid() && newChunk != NULL
      ensures exists k: nat :: FreedThenTaken(old(chunks), old(lists), i, size, k, chunks, lists)
                               && Freed(old(chunks), i)[k].start == newChunk
      ensures Resized(old(chunks), i, chunks, j) && chunks[j].start == newChunk && size <= chunks[j].Size()
      ensures Kept(old(mem[..]), mem[..], old(chunks), {chunk})
      ensures Payload(mem[..], newChunk, chunkSize / 8) == Payload(old(mem[..]), chunk, chunkSize / 8)
    {
      hide Resized, LastFree, FirstFree, Inv, FreedLists, Chosen, Allotted, AllottedLists, Freed, Coalesced, Accounts,
           Kept;
      ghost var m0, b0, cs0, ls0 := mem[..], buckets[..], chunks, lists;
      InvGeometry(m0, b0, cs0, ls0, lo, hi, {});
      assert cs0[i] in cs0;
      var tmp := mem[chunk + 1..chunk + 1 + chunkSize / 8];
      Free(chunk + 1, i);
      ghost var m1, cs1 := mem[..], chunks;
      FreedUsed(m0, b0, cs0, ls0, lo, hi, i);
      FreedHolds(cs0, i, size);
      newChunk, j := MallocInRoom(size);
      ghost var m2 := mem[..];
      FreedThenCarved(cs0, i, cs1, chunks, j);
      CopyIn(newChunk, tmp, j);
      assert FreedThenTaken(cs0, ls0, i, size, j, chunks, lists);
      CopyKept(m0, m1, m2, mem[..], cs0, cs1, chunks, {chunk}, newChunk);
    }

    /** The paths of __mem_realloc for a request that does not fit in place. */
    method Elsewhere(chunk: nat, chunkSize: nat, size: nat, nextChunk: nat, ghost i: nat)
      returns (newChunk: nat, ghost j: nat)
      requires Valid() && Around(i, chunk, chunkSize, nextChunk, nextChunk < hi && IsFree(mem[nextChunk]))
      requires size % 8 == 0 && MIN_ALLOC <= size && chunkSize < size && !FitsInPlace(chunks, i, size)
      modifies this, mem, buckets
      ensures Valid()
      ensures newChunk == NULL <==> Unservable(old(chunks), i, size)
      ensures newChunk == NULL ==> unchanged(this) && unchanged(mem) && unchanged(buckets)
      ensures newChunk != NULL ==>
                && Relocated(old(chunks), old(lists), i, size, chunks, lists, newChunk)
                && Resized(old(chunks), i, chunks, j) && chunks[j].start == newChunk && size <= chunks[j].Size()
                && Kept(old(mem[..]), mem[..], old(chunks), {chunk})
                && Payload(mem[..], newChunk, chunkSize / 8) == Payload(old(mem[..]), chunk, chunkSize / 8)
    {
      hide Inv, Coalesced, Accounts, Kept, Merged, Resized, Payload, FitsInPlace;
      ghost var m0, b0, cs0, ls0 := mem[..], buckets[..], chunks, lists;
      NeighbourTags(m0, b0, cs0, ls0, lo, hi, i);
      FreedSize(m0, b0, cs0, ls0, lo, hi, i);
      var nextFree := nextChunk < hi && IsFree(mem[nextChunk]);
      newChunk, j := Move(chunk, chunkSize, size, i);
      if newChunk == NULL {
        assert mem[..] == m0;
        var newChunkSize := chunkSize;
        if nextFree {
          newChunkSize := newChunkSize + ChunkSize(mem[nextChunk]) + 16;
        }
        if lo < chunk && IsFree(mem[chunk - 1]) {
          newChunkSize := newChunkSize + ChunkSize(mem[chunk - 1]) + 16;
        }
        if size > newChunkSize {
          return;
        }
        newChunk, j := ViaCopy(chunk, chunkSize, size, i);
      }
    }

    /** The paths of __mem_realloc for a request the chunk can hold: it stays as it is unless much would be freed. */
    method Shrink(chunk: nat, chunkSize: nat, size: nat, nextChunk: nat, ghost i: nat)
      requires Valid() && Around(i, chunk, chunkSize, nextChunk, nextChunk < hi && IsFree(mem[nextChunk]))
      requires size % 8 == 0 && MIN_ALLOC <= size <= chunkSize
      modifies this, mem, buckets
      ensures Valid()
      ensures chunkSize / 4 < size ==> unchanged(this) && unchanged(mem) && unchanged(buckets)
      ensures size <= chunkSize / 4 ==> chunks == Recarved(old(chunks), i, size / 8)
      ensures size <= chunkSize / 4 ==> lists == RecarvedLists(old(lists), old(chunks), i, size / 8)
      ensures Kept(old(mem[..]), mem[..], old(chunks), {chunk})
      ensures Payload(mem[..], chunk, size / 8) == Payload(old(mem[..]), chunk, size / 8)
    {
      hide Inv, Coalesced, Accounts, Recarved, RecarvedLists, Payload;
      InvGeometry(mem[..], buckets[..], chunks, lists, lo, hi, {});
      if size > chunkSize / 4 {
        return;
      }
      if nextChunk < hi && IsFree(mem[nextChunk]) {
        ShrinkMerge(chunk, chunkSize, size, nextChunk, i);
      } else {
        ShrinkSplit(chunk, chunkSize, size, nextChunk, i);
      }
    }

    /** __mem_realloc.  It fails just when the request cannot be met in any way, and then changes
        nothing; else the chunk it returns replaces the old one, has room for the request and
        starts with the old contents, and no other used chunk changes.  A request that fits in place
        keeps its address, and one above a quarter of the chunk that the chunk can hold changes nothing. */
    method Realloc(ptr: nat, size: nat, ghost i: nat) returns (chunk: nat, ghost j: nat)
      requires Valid() && i < |chunks| && chunks[i].used && ptr == chunks[i].start + 1
      modifies this, mem, buckets
      ensures Valid()
      ensures chunk == NULL <==> Unservable(old(chunks), i, ProperAllocSize(size))
      ensures chunk == NULL ==> unchanged(this) && unchanged(mem) && unchanged(buckets)
      ensures chunk != NULL ==>
                && Resized(old(chunks), i, chunks, j) && chunks[j].start == chunk
                   && ProperAllocSize(size) <= chunks[j].Size()
                && Kept(old(mem[..]), mem[..], old(chunks), {ptr - 1})
                && var n := Min(old(chunks)[i].words, ProperAllocSize(size) / 8);
                   Payload(mem[..], chunk, n) == Payload(old(mem[..]), ptr - 1, n)
      ensures LeftAlone(old(chunks), i, ProperAllocSize(size)) ==>
                chunk == ptr - 1 && unchanged(this) && unchanged(mem) && unchanged(buckets)
      ensures FitsInPlace(old(chunks), i, ProperAllocSize(size))
              && !LeftAlone(old(chunks), i, ProperAllocSize(size)) ==>
                && chunk == ptr - 1 && chunks == Recarved(old(chunks), i, ProperAllocSize(size) / 8)
                && lists == RecarvedLists(old(lists), old(chunks), i, ProperAllocSize(size) / 8)
      ensures chunk != NULL ==>
                Resettled(old(chunks), old(lists), i, ProperAllocSize(size), chunks, lists, chunk)
    {
      hide Inv, Coalesced, Accounts, Kept, Merged, Resized, Payload, RecarvedLists, Recarved;
      ghost var m0, b0, cs0, ls0 := mem[..], buckets[..], chunks, lists;
      NeighbourTags(m0, b0, cs0, ls0, lo, hi, i);
      MergedNext(m0, b0, cs0, ls0, lo, hi, i);
      FreedSize(m0, b0, cs0, ls0, lo, hi, i);
      var need := ProperAllocSize(size);
      chunk, j := ptr - 1, i;
      var chunkSize := ChunkSize(mem[chunk]);
      var nextChunk := chunk + 1 + chunkSize / 8 + 1;
      var nextFree := nextChunk < hi && IsFree(mem[nextChunk]);
      RecarvedUsed(m0, b0, cs0, ls0, lo, hi, i, need / 8);
      if need <= chunkSize {
        Shrink(chunk, chunkSize, need, nextChunk, i);
        SameChunk(cs0, i, m0, b0, ls0, lo, hi);
        return;
      }
      if nextFree && chunkSize + 16 + ChunkSize(mem[nextChunk]) >= need {
        Grow(chunk, chunkSize, need, nextChunk, i);
        return;
      }
      chunk, j := Elsewhere(chunk, chunkSize, need, nextChunk, i);
    }
  }
}
