/** What nt_mem_dump_stats reports about an arena, and what an arena's validity means chunk by chunk. */
module MemStats {
  import opened MemLayout
  import opened MemSteps
  import opened Sequences
  import opened MemFacts
  import opened MemArena

  /** The chunks follow one another without a gap from one bound to the other; each holds a multiple of 8
      and at least 24 bytes; both tags of each say its size and whether it is used; of two neighbours one is used. */
  lemma WellFormed(a: Arena, i: nat)
    requires a.Valid() && i < |a.chunks|
    ensures var u := a.chunks[i];
            && (i == 0 <==> u.start == a.lo) && (i + 1 == |a.chunks| <==> u.End() == a.hi) && a.hi <= a.mem.Length
            && u.Size() % 8 == 0 && u.Size() >= MIN_ALLOC && u.End() <= a.mem.Length
            && ChunkSize(a.mem[u.start]) == ChunkSize(a.mem[u.End() - 1]) == u.Size()
            && IsFree(a.mem[u.start]) == IsFree(a.mem[u.End() - 1]) == !u.used
            && (i + 1 < |a.chunks| ==> u.End() == a.chunks[i + 1].start && (u.used || a.chunks[i + 1].used))
  {
    hide Inv;
    var m, cs := a.mem[..], a.chunks;
    assert cs[i] in cs;
    TagRead(m, a.buckets[..], cs, a.lists, a.lo, a.hi, {}, cs[i]);
    TilesOf(m, a.buckets[..], cs, a.lists, a.lo, a.hi);
    TilesNext(cs, i, a.lo, a.hi);
    assert m[cs[i].start] == a.mem[cs[i].start]
           && m[cs[i].start + cs[i].words + 1] == a.mem[cs[i].start + cs[i].words + 1];
  }

  /** A free chunk is in exactly one place on the lists, on that of its size, linked to its neighbours there. */
  lemma FiledOnce(a: Arena, u: Chunk)
    requires a.Valid() && u in a.chunks && !u.used
    ensures var l := a.lists[u.Bucket()]; exists j :: 0 <= j < |l| && l[j] == u && LinkOk(a.mem[..], l, j)
    ensures forall k, j :: 0 <= k < |a.lists| && 0 <= j < |a.lists[k]| && a.lists[k][j] == u ==>
              k == u.Bucket() && forall q :: 0 <= q < |a.lists[k]| && a.lists[k][q] == u ==> q == j
  {
  }

  ghost function FreeChunks(cs: seq<Chunk>): set<Chunk> {
    set u | u in cs && !u.used
  }

  /** The free chunks of the buckets before the k-th. */
  ghost function ListedBelow(cs: seq<Chunk>, k: nat): set<Chunk> {
    set u | u in cs && !u.used && u.Bucket() < k
  }

  lemma {:induction false} SizeOfElements<T>(l: seq<T>)
    requires NoDup(l)
    ensures |Elements(l)| == |l|
  {
    if l != [] {
      SizeOfElements(l[1..]);
      assert Elements(l) == {l[0]} + Elements(l[1..]);
    } else {
      assert Elements(l) == {};
    }
  }

  lemma BucketElements(cs: seq<Chunk>, lists: seq<seq<Chunk>>, k: nat)
    requires Filed(cs, lists) && k < |lists|
    ensures NoDup(lists[k]) && ListedBelow(cs, k + 1) == ListedBelow(cs, k) + Elements(lists[k])
    ensures ListedBelow(cs, k) !! Elements(lists[k])
  {
    assert forall u :: u in lists[k] ==> u in cs && !u.used && u.Bucket() == k;
  }

  lemma FiledOf(m: seq<Word>, b: seq<nat>, cs: seq<Chunk>, lists: seq<seq<Chunk>>, lo: nat, hi: nat)
    requires Inv(m, b, cs, lists, lo, hi, {})
    ensures Filed(cs, lists) && |lists| == BUCKET_COUNT
  {
  }

  /** The chunks of one bucket are those on its list, and that has each once. */
  lemma OneMoreList(m: seq<Word>, b: seq<nat>, cs: seq<Chunk>, lists: seq<seq<Chunk>>, lo: nat, hi: nat, k: nat)
    requires Inv(m, b, cs, lists, lo, hi, {}) && k < BUCKET_COUNT
    ensures ListedBelow(cs, k + 1) == ListedBelow(cs, k) + Elements(lists[k])
    ensures |ListedBelow(cs, k + 1)| == |ListedBelow(cs, k)| + |lists[k]|
  {
    hide Inv, Filed, ListedBelow, Elements, NoDup;
    FiledOf(m, b, cs, lists, lo, hi);
    BucketElements(cs, lists, k);
    SizeOfElements(lists[k]);
  }

  const MAX_WORD: nat := 0xFFFF_FFFF_FFFF_FFFF

  lemma ListedSizes(m: seq<Word>, b: seq<nat>, cs: seq<Chunk>, lists: seq<seq<Chunk>>, lo: nat, hi: nat, k: nat)
    requires Inv(m, b, cs, lists, lo, hi, {}) && k < BUCKET_COUNT
    ensures forall u :: u in lists[k] ==> 0 < u.Size() < MAX_WORD
  {
    hide Inv;
    InvGeometry(m, b, cs, lists, lo, hi, {});
    ListHolds(m, b, cs, lists, lo, hi, {}, k);
  }

  /** The number of chunks, from the totals alone. */
  lemma ChunksFromTotals(a: Arena)
    requires a.Valid()
    ensures a.usedSize + a.freeSize + 16 * (|a.chunks| - 1) == a.totalSize
  {
    SumsCoverTheArena(a.chunks, a.lo, a.hi);
  }

  /** `low` and `high` are the least and the greatest chunk size in `l`, once `low0` and `high0` are taken in. */
  ghost predicate Extremes(l: seq<Chunk>, low0: nat, high0: nat, low: nat, high: nat) {
    && low <= low0 && high0 <= high && (forall u :: u in l ==> low <= u.Size() <= high)
    && (low == low0 || exists u :: u in l && u.Size() == low)
    && (high == high0 || exists u :: u in l && u.Size() == high)
  }

  lemma ExtremesStep(l: seq<Chunk>, k: nat, low0: nat, high0: nat, low: nat, high: nat)
    requires k < |l| && Extremes(l[..k], low0, high0, low, high)
    ensures var size := l[k].Size();
            Extremes(l[..k + 1], low0, high0, if size < low then size else low, if size > high then size else high)
  {
    assert l[..k + 1] == l[..k] + [l[k]];
  }

  lemma NoExtremes(low0: nat, high0: nat)
    ensures Extremes([], low0, high0, low0, high0)
  {
  }

  /** The walk along one list. */
  method CountList(a: Arena, index: nat, low0: nat, high0: nat) returns (counter: nat, low: nat, high: nat)
    requires a.Valid() && index < BUCKET_COUNT && index < |a.lists|
    ensures counter == |a.lists[index]| && Extremes(a.lists[index], low0, high0, low, high)
  {
    hide Inv, Extremes, Coalesced;
    ghost var m, b, cs, ls := a.mem[..], a.buckets[..], a.chunks, a.lists;
    InvGeometry(m, b, cs, ls, a.lo, a.hi, {});
    counter, low, high := 0, low0, high0;
    HeadRead(m, b, cs, ls, a.lo, a.hi, index);
    var chunk := a.buckets[index];
    NoExtremes(low0, high0);
    assert ls[index][..0] == [];
    while chunk != NULL
      invariant counter <= |ls[index]| && chunk == if counter < |ls[index]| then ls[index][counter].start else NULL
      invariant chunk == NULL ==> counter == |ls[index]|
      invariant chunk != NULL ==> chunk < a.mem.Length && ChunkSize(a.mem[chunk]) == ls[index][counter].Size()
      invariant Extremes(ls[index][..counter], low0, high0, low, high)
      decreases |ls[index]| - counter
    {
      NextRead(m, b, cs, ls, a.lo, a.hi, index, counter);
      ExtremesStep(ls[index], counter, low0, high0, low, high);
      counter := counter + 1;
      low := if ChunkSize(a.mem[chunk]) < low then ChunkSize(a.mem[chunk]) else low;
      high := if ChunkSize(a.mem[chunk]) > high then ChunkSize(a.mem[chunk]) else high;
      chunk := a.mem[chunk + 2];
    }
    assert ls[index][..counter] == ls[index];
  }

  /** The sizes reported are the least and the greatest of a free chunk, or the initial values when there is none. */
  ghost predicate Spans(free: set<Chunk>, low: nat, high: nat) {
    && (free == {} ==> low == MAX_WORD && high == 0)
    && (forall u :: u in free ==> low <= u.Size() <= high)
    && (free != {} ==> (exists u :: u in free && u.Size() == low) && exists u :: u in free && u.Size() == high)
  }

  lemma SpansMore(free: set<Chunk>, l: seq<Chunk>, low0: nat, high0: nat, low: nat, high: nat)
    requires Spans(free, low0, high0) && Extremes(l, low0, high0, low, high)
    requires forall u :: u in l ==> 0 < u.Size() < MAX_WORD
    ensures Spans(free + Elements(l), low, high)
  {
    var all := free + Elements(l);
    if l == [] {
      assert all == free;
    } else if free == {} {
      assert l[0] in l && l[0] in all;
      assert low != low0 && high != high0;
    }
  }

  lemma NoneListed(cs: seq<Chunk>)
    ensures ListedBelow(cs, 0) == {} && ListedBelow(cs, BUCKET_COUNT) == FreeChunks(cs)
    ensures Spans({}, MAX_WORD, 0)
  {
  }

  /** nt_mem_dump_stats: how many chunks there are, from the totals; how many of them are free, in all and for
      each bucket, and the sizes these span, from the lists. */
  method Stats(a: Arena) returns (total: int, totalFree: nat, counters: seq<nat>, minSize: nat, maxSize: nat)
    requires a.Valid()
    ensures total == |a.chunks| && totalFree == |FreeChunks(a.chunks)|
    ensures |counters| == |a.lists| == BUCKET_COUNT && forall k :: 0 <= k < BUCKET_COUNT ==> counters[k] == |a.lists[k]|
    ensures Spans(FreeChunks(a.chunks), minSize, maxSize)
  {
    hide Inv, ListedBelow, Coalesced, Spans, Extremes;
    ghost var m, b, cs, ls := a.mem[..], a.buckets[..], a.chunks, a.lists;
    InvGeometry(m, b, cs, ls, a.lo, a.hi, {});
    NoneListed(cs);
    totalFree, counters, minSize, maxSize := 0, [], MAX_WORD, 0;
    for index := 0 to BUCKET_COUNT
      invariant totalFree == |ListedBelow(cs, index)| && Spans(ListedBelow(cs, index), minSize, maxSize)
      invariant |counters| == index && forall k :: 0 <= k < index ==> counters[k] == |ls[k]|
    {
      OneMoreList(m, b, cs, ls, a.lo, a.hi, index);
      ListedSizes(m, b, cs, ls, a.lo, a.hi, index);
      ghost var low0, high0 := minSize, maxSize;
      var counter;
      counter, minSize, maxSize := CountList(a, index, minSize, maxSize);
      SpansMore(ListedBelow(cs, index), ls[index], low0, high0, minSize, maxSize);
      totalFree := totalFree + counter;
      counters := counters + [counter];
    }
    ChunksFromTotals(a);
    total := (a.totalSize - a.usedSize - a.freeSize) / 16 + 1;
  }
}
