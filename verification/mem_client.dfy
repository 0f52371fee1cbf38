/** Programs that use the allocator of nt_mem.c, against the heap they may imagine. */
module MemClient {
  import opened MemLayout
  import opened MemSteps
  import opened MemFacts
  import opened MemArena
  import opened Sequences

  /** A block as its user sees it: the words it may use, and what it last stored in the first of them. */
  datatype Block = Dead | Live(capacity: nat, data: seq<Word>)

  datatype Command =
    | Alloc(size: nat)
    | Resize(h: nat, size: nat)
    | Release(h: nat)
    | Store(h: nat, data: seq<Word>)
    | Reset

  // ----- the imagined heap -----

  function Words(size: nat): nat { ProperAllocSize(size) / 8 }

  predicate IsLive(blocks: seq<Block>, h: nat) { h < |blocks| && blocks[h].Live? }

  /** What a command does to separate blocks, when `ok` says whether the allocation it asks for succeeds. */
  function Ideal(blocks: seq<Block>, cmd: Command, ok: bool): seq<Block> {
    match cmd
    case Alloc(size) => blocks + [if ok then Live(Words(size), []) else Dead]
    case Resize(h, size) =>
      if !IsLive(blocks, h) || !ok then blocks
      else blocks[h := Live(Words(size), blocks[h].data[..Min(|blocks[h].data|, Words(size))])]
    case Release(h) => if IsLive(blocks, h) then blocks[h := Dead] else blocks
    case Store(h, data) =>
      if IsLive(blocks, h) && |data| <= blocks[h].capacity then blocks[h := Live(blocks[h].capacity, data)] else blocks
    case Reset => seq(|blocks|, h => Dead)
  }

  function IdealRun(cmds: seq<Command>, oks: seq<bool>): seq<Block>
    requires |cmds| == |oks|
  {
    if cmds == [] then []
    else Ideal(IdealRun(cmds[..|cmds| - 1], oks[..|oks| - 1]), cmds[|cmds| - 1], oks[|oks| - 1])
  }

  // ----- when a command fails, and what it does to the chunks -----

  /** The chunks of the arena, the lists of free ones, and the addresses the program holds. */
  datatype Snapshot = Snapshot(chunks: seq<Chunk>, lists: seq<seq<Chunk>>, addrs: seq<nat>)

  /** The i-th chunk is that of a live block. */
  ghost predicate IsChunkOf(s: Snapshot, blocks: seq<Block>, h: nat, i: nat) {
    && IsLive(blocks, h) && h < |s.addrs|
    && i < |s.chunks| && s.chunks[i].used && s.chunks[i].start == s.addrs[h]
  }

  /** An allocation fails when no free chunk is large enough; a change of size when there is no way to do it. */
  ghost predicate Fails(s: Snapshot, blocks: seq<Block>, cmd: Command) {
    match cmd
    case Alloc(size) => forall u :: u in s.chunks && !u.used ==> u.Size() < ProperAllocSize(size)
    case Resize(h, size) =>
      exists i: nat :: IsChunkOf(s, blocks, h, i) && Unservable(s.chunks, i, ProperAllocSize(size))
    case _ => false
  }

  /** An allocation takes the chunk to take, whole or the low end of it. */
  ghost predicate Allocates(s: Snapshot, size: nat, k: nat, s': Snapshot) {
    && Chosen(s.chunks, s.lists, k, ProperAllocSize(size))
    && s' == Snapshot(Allotted(s.chunks, k, ProperAllocSize(size)),
                      AllottedLists(s.lists, s.chunks, k, ProperAllocSize(size)), s.addrs + [s.chunks[k].start])
  }

  /** A change of size leaves the chunk alone, does it in place, or puts another chunk in its place. */
  ghost predicate Resizes(s: Snapshot, blocks: seq<Block>, h: nat, size: nat, i: nat, s': Snapshot) {
    && IsChunkOf(s, blocks, h, i) && h < |s'.addrs| && s'.addrs == s.addrs[h := s'.addrs[h]]
    && Resettled(s.chunks, s.lists, i, ProperAllocSize(size), s'.chunks, s'.lists, s'.addrs[h])
  }

  ghost predicate Releases(s: Snapshot, blocks: seq<Block>, h: nat, i: nat, s': Snapshot) {
    IsChunkOf(s, blocks, h, i) && s' == Snapshot(Freed(s.chunks, i), FreedLists(s.lists, s.chunks, i), s.addrs)
  }

  ghost predicate Moves(whole: Chunk, s: Snapshot, blocks: seq<Block>, cmd: Command, ok: bool, s': Snapshot) {
    match cmd
    case Alloc(size) =>
      if ok then exists k: nat :: Allocates(s, size, k, s') else s' == s.(addrs := s.addrs + [NULL])
    case Resize(h, size) =>
      if ok && IsLive(blocks, h) then exists i: nat :: Resizes(s, blocks, h, size, i, s') else s' == s
    case Release(h) => if IsLive(blocks, h) then exists i: nat :: Releases(s, blocks, h, i, s') else s' == s
    case Store(_, _) => s' == s
    case Reset => s' == Snapshot([whole], FiledAlone(whole), s.addrs)
  }

  /** One command: it succeeds unless it must fail, and moves the chunks and addresses accordingly. */
  ghost predicate Turn(whole: Chunk, s: Snapshot, blocks: seq<Block>, cmd: Command, ok: bool, s': Snapshot) {
    (ok <==> !Fails(s, blocks, cmd)) && Moves(whole, s, blocks, cmd, ok, s')
  }

  // ----- there is only one way to go on -----

  /** Chunks are told apart by where they start. */
  ghost predicate Starts(cs: seq<Chunk>) {
    forall u, v :: u in cs && v in cs && u.start == v.start ==> u == v
  }

  /** What every snapshot of an arena satisfies. */
  ghost predicate Sound(s: Snapshot) {
    && Starts(s.chunks) && NoDup(s.chunks) && Filed(s.chunks, s.lists) && forall u :: u in s.chunks ==> u.words >= 3
  }

  lemma SameStart(cs: seq<Chunk>, i: nat, j: nat)
    requires Starts(cs) && NoDup(cs) && i < |cs| && j < |cs| && cs[i].start == cs[j].start
    ensures i == j
  {
    assert cs[i] in cs && cs[j] in cs;
  }

  lemma FreedElsewhere(cs: seq<Chunk>, i: nat, k: nat)
    requires i < |cs| && k < |Freed(cs, i)| && k != FirstFree(cs, i)
    ensures Freed(cs, i)[k] in cs
  {
    var a, e := FirstFree(cs, i), LastFree(cs, i);
    var j := if k < a then k else k - a - 1 + e;
    assert Freed(cs, i)[k] == cs[j];
  }

  /** When a chunk is freed because nothing else fits, only what it was merged into fits. */
  lemma OnlyMergedFits(cs: seq<Chunk>, i: nat, k: nat, size: nat)
    requires i < |cs| && k < |Freed(cs, i)|
    requires !FitsSomewhere(cs, size) && !Freed(cs, i)[k].used && size <= Freed(cs, i)[k].Size()
    ensures k == FirstFree(cs, i)
  {
    hide Freed;
    if k != FirstFree(cs, i) {
      FreedElsewhere(cs, i, k);
    }
  }

  lemma RelocatedOnce(cs: seq<Chunk>, lists: seq<seq<Chunk>>, i: nat, size: nat,
                      ds: seq<Chunk>, dlists: seq<seq<Chunk>>, start: nat,
                      es: seq<Chunk>, elists: seq<seq<Chunk>>, start': nat)
    requires Starts(cs) && NoDup(cs) && Filed(cs, lists) && forall u :: u in cs ==> u.words >= 3
    requires Relocated(cs, lists, i, size, ds, dlists, start) && Relocated(cs, lists, i, size, es, elists, start')
    ensures ds == es && dlists == elists && start == start'
  {
    hide Filed, Starts, NoDup, FirstThatFits, Freed, FreedLists, Allotted, AllottedLists;
    if FitsSomewhere(cs, size) {
      var k: nat :| TakenThenFreed(cs, lists, i, size, k, ds, dlists) && cs[k].start == start;
      var k': nat :| TakenThenFreed(cs, lists, i, size, k', es, elists) && cs[k'].start == start';
      ChosenIsUnique(cs, lists, k, k', size);
    } else {
      var k: nat :| FreedThenTaken(cs, lists, i, size, k, ds, dlists) && Freed(cs, i)[k].start == start;
      var k': nat :| FreedThenTaken(cs, lists, i, size, k', es, elists) && Freed(cs, i)[k'].start == start';
      OnlyMergedFits(cs, i, k, size);
      OnlyMergedFits(cs, i, k', size);
    }
  }

  lemma ResettledOnce(s: Snapshot, blocks: seq<Block>, h: nat, size: nat, i: nat, j: nat, s': Snapshot, t': Snapshot)
    requires Sound(s) && Resizes(s, blocks, h, size, i, s') && Resizes(s, blocks, h, size, j, t')
    ensures s' == t'
  {
    hide Filed, Starts, NoDup, LeftAlone, FitsInPlace, Relocated, Recarved, RecarvedLists;
    SameStart(s.chunks, i, j);
    if !LeftAlone(s.chunks, i, ProperAllocSize(size)) && !FitsInPlace(s.chunks, i, ProperAllocSize(size)) {
      RelocatedOnce(s.chunks, s.lists, i, ProperAllocSize(size), s'.chunks, s'.lists, s'.addrs[h],
                    t'.chunks, t'.lists, t'.addrs[h]);
    }
    assert s'.addrs == t'.addrs;
  }

  /** Whether a command succeeds, and all the chunks, lists and addresses after it, are settled before it. */
  lemma TurnIsSettled(whole: Chunk, s: Snapshot, blocks: seq<Block>, cmd: Command,
                      ok: bool, s': Snapshot, ok': bool, t': Snapshot)
    requires Sound(s) && Turn(whole, s, blocks, cmd, ok, s') && Turn(whole, s, blocks, cmd, ok', t')
    ensures ok == ok' && s' == t'
  {
    hide Filed, Starts, NoDup, Fails, Resizes, Resettled, Chosen, Allotted, AllottedLists, Freed, FreedLists;
    match cmd
    case Alloc(size) =>
      if ok {
        var j: nat :| Allocates(s, size, j, s');
        var k: nat :| Allocates(s, size, k, t');
        ChosenIsUnique(s.chunks, s.lists, j, k, ProperAllocSize(size));
      }
    case Resize(h, size) =>
      if ok && IsLive(blocks, h) {
        var i: nat :| Resizes(s, blocks, h, size, i, s');
        var j: nat :| Resizes(s, blocks, h, size, j, t');
        ResettledOnce(s, blocks, h, size, i, j, s', t');
      }
    case Release(h) =>
      if IsLive(blocks, h) {
        var i: nat :| Releases(s, blocks, h, i, s');
        var j: nat :| Releases(s, blocks, h, j, t');
        SameStart(s.chunks, i, j);
      }
    case _ =>
  }

  // ----- how the arena backs the blocks -----

  /** A used chunk at `addr` is large enough for the block, and starts with its data. */
  ghost predicate Backs(cs: seq<Chunk>, m: seq<Word>, addr: nat, blk: Block) {
    blk.Live? ==>
      exists u :: u in cs && u.used && u.start == addr && |blk.data| <= blk.capacity <= u.words
          && Payload(m, addr, |blk.data|) == blk.data
  }

  ghost predicate Owned(addr: nat, addrs: seq<nat>, blocks: seq<Block>) {
    exists h :: 0 <= h < |blocks| && h < |addrs| && blocks[h].Live? && addrs[h] == addr
  }

  /** Each live block has a used chunk of its own, and each used chunk is some live block's. */
  ghost predicate Backed(cs: seq<Chunk>, m: seq<Word>, addrs: seq<nat>, blocks: seq<Block>) {
    && |addrs| == |blocks|
    && (forall h :: 0 <= h < |blocks| ==> Backs(cs, m, addrs[h], blocks[h]))
    && (forall g, h :: 0 <= g < h < |blocks| && blocks[g].Live? && blocks[h].Live? ==> addrs[g] != addrs[h])
    && (forall u :: u in cs && u.used ==> Owned(u.start, addrs, blocks))
  }

  lemma StartsDiffer(m: seq<Word>, b: seq<nat>, cs: seq<Chunk>, lists: seq<seq<Chunk>>, lo: nat, hi: nat)
    requires Inv(m, b, cs, lists, lo, hi, {})
    ensures Starts(cs) && NoDup(cs) && forall u :: u in cs ==> 0 < u.start && u.End() <= |m|
  {
    hide Inv;
    InvGeometry(m, b, cs, lists, lo, hi, {});
  }

  lemma BacksKept(cs: seq<Chunk>, ds: seq<Chunk>, m: seq<Word>, m': seq<Word>, but: set<nat>, addr: nat, blk: Block)
    requires Backs(cs, m, addr, blk) && Kept(m, m', cs, but) && (blk.Live? ==> addr !in but)
    requires forall u :: u in cs && u.used && u.start !in but ==> u in ds && u.End() <= |m|
    ensures Backs(ds, m', addr, blk)
  {
  }

  /** The chunk of a live block, by its position. */
  lemma ChunkOf(cs: seq<Chunk>, m: seq<Word>, addrs: seq<nat>, blocks: seq<Block>, h: nat) returns (i: nat)
    requires Backed(cs, m, addrs, blocks) && IsLive(blocks, h)
    ensures i < |cs| && cs[i].used && cs[i].start == addrs[h]
    ensures Starts(cs) ==> |blocks[h].data| <= blocks[h].capacity <= cs[i].words
    ensures Payload(m, addrs[h], |blocks[h].data|) == blocks[h].data
  {
    assert Backs(cs, m, addrs[h], blocks[h]);
    var u :| u in cs && u.used && u.start == addrs[h] && |blocks[h].data| <= blocks[h].capacity <= u.words
             && Payload(m, addrs[h], |blocks[h].data|) == blocks[h].data;
    i :| 0 <= i < |cs| && cs[i] == u;
  }

  /** One block's chunk was replaced by another; the other blocks are as they were. */
  lemma BackedResized(cs: seq<Chunk>, ds: seq<Chunk>, m: seq<Word>, m': seq<Word>, i: nat, j: nat,
                      addrs: seq<nat>, blocks: seq<Block>, h: nat, blk: Block)
    requires Backed(cs, m, addrs, blocks) && IsLive(blocks, h) && i < |cs| && addrs[h] == cs[i].start && cs[i].used
    requires Starts(cs) && Starts(ds) && (forall u :: u in cs ==> u.End() <= |m|)
    requires Resized(cs, i, ds, j) && Kept(m, m', cs, {cs[i].start})
    requires blk.Live? && |blk.data| <= blk.capacity <= ds[j].words && Payload(m', ds[j].start, |blk.data|) == blk.data
    ensures Backed(ds, m', addrs[h := ds[j].start], blocks[h := blk])
  {
    hide Kept, Payload;
    var as', bs := addrs[h := ds[j].start], blocks[h := blk];
    assert cs[i] in cs && ds[j] in ds;
    assert Backs(ds, m', ds[j].start, blk);
    forall g | 0 <= g < |bs| && g != h && blocks[g].Live?
      ensures addrs[g] != cs[i].start && Backs(ds, m', addrs[g], blocks[g]) && addrs[g] != ds[j].start
    {
      assert Backs(cs, m, addrs[g], blocks[g]);
      assert addrs[g] != addrs[h];
      var q := ChunkOf(cs, m, addrs, blocks, g);
      BacksKept(cs, ds, m, m', {cs[i].start}, addrs[g], blocks[g]);
      assert cs[q] in cs && cs[q] != cs[i];
    }
    forall u | u in ds && u.used
      ensures Owned(u.start, as', bs)
    {
      if u == ds[j] {
        assert bs[h].Live? && as'[h] == u.start;
      } else {
        assert Owned(u.start, addrs, blocks);
        var g :| 0 <= g < |blocks| && blocks[g].Live? && addrs[g] == u.start;
        assert g != h;
        assert bs[g].Live? && as'[g] == u.start;
      }
    }
  }

  /** A free chunk became some used one: the blocks are as they were, and there is room for a new one. */
  lemma BackedAlloc(cs: seq<Chunk>, ds: seq<Chunk>, m: seq<Word>, m': seq<Word>, k: nat, capacity: nat,
                    addrs: seq<nat>, blocks: seq<Block>)
    requires Backed(cs, m, addrs, blocks) && (forall u :: u in cs ==> u.End() <= |m|)
    requires k < |ds| && ds[k].used && capacity <= ds[k].words && Kept(m, m', cs, {})
    requires forall u: Chunk :: u.used ==> (u in ds <==> u == ds[k] || u in cs)
    requires forall u :: u in cs && u.used ==> u.start != ds[k].start
    ensures Backed(ds, m', addrs + [ds[k].start], blocks + [Live(capacity, [])])
  {
    hide Kept;
    var as', bs := addrs + [ds[k].start], blocks + [Live(capacity, [])];
    assert ds[k] in ds;
    assert Backs(ds, m', ds[k].start, Live(capacity, []));
    forall g | 0 <= g < |blocks|
      ensures Backs(ds, m', addrs[g], blocks[g]) && (blocks[g].Live? ==> addrs[g] != ds[k].start)
    {
      BacksKept(cs, ds, m, m', {}, addrs[g], blocks[g]);
    }
    forall u | u in ds && u.used
      ensures Owned(u.start, as', bs)
    {
      if u == ds[k] {
        assert bs[|blocks|].Live? && as'[|blocks|] == u.start;
      } else {
        assert Owned(u.start, addrs, blocks);
        var g :| 0 <= g < |blocks| && blocks[g].Live? && addrs[g] == u.start;
        assert bs[g].Live? && as'[g] == u.start;
      }
    }
  }

  lemma BackedNoAlloc(cs: seq<Chunk>, m: seq<Word>, addrs: seq<nat>, blocks: seq<Block>)
    requires Backed(cs, m, addrs, blocks)
    ensures Backed(cs, m, addrs + [NULL], blocks + [Dead])
  {
    forall u | u in cs && u.used
      ensures Owned(u.start, addrs + [NULL], blocks + [Dead])
    {
      var g :| 0 <= g < |blocks| && blocks[g].Live? && addrs[g] == u.start;
      assert (blocks + [Dead])[g].Live? && (addrs + [NULL])[g] == u.start;
    }
  }

  /** The i-th chunk, of block `h`, is no longer a used one. */
  lemma BackedRelease(cs: seq<Chunk>, ds: seq<Chunk>, m: seq<Word>, m': seq<Word>, i: nat, addrs: seq<nat>,
                      blocks: seq<Block>, h: nat)
    requires Backed(cs, m, addrs, blocks) && IsLive(blocks, h) && i < |cs| && addrs[h] == cs[i].start && cs[i].used
    requires Starts(cs) && (forall u :: u in cs ==> u.End() <= |m|) && Kept(m, m', cs, {cs[i].start})
    requires forall u: Chunk :: u.used ==> (u in ds <==> u in cs && u != cs[i])
    ensures Backed(ds, m', addrs, blocks[h := Dead])
  {
    hide Kept;
    var bs := blocks[h := Dead];
    assert cs[i] in cs;
    forall g | 0 <= g < |blocks| && g != h
      ensures Backs(ds, m', addrs[g], blocks[g])
    {
      BacksKept(cs, ds, m, m', {cs[i].start}, addrs[g], blocks[g]);
    }
    forall u | u in ds && u.used
      ensures Owned(u.start, addrs, bs)
    {
      assert Owned(u.start, addrs, blocks);
      var g :| 0 <= g < |blocks| && blocks[g].Live? && addrs[g] == u.start;
      assert g != h;
      assert bs[g].Live?;
    }
  }

  lemma PayloadPrefix(m: seq<Word>, m': seq<Word>, c: nat, c': nat, data: seq<Word>, words: nat, need: nat)
    requires Payload(m, c, |data|) == data && |data| <= words && c + 1 + words <= |m| && c' + 1 + need <= |m'|
    requires Payload(m', c', Min(words, need)) == Payload(m, c, Min(words, need))
    ensures Payload(m', c', Min(|data|, need)) == data[..Min(|data|, need)]
  {
    var n := Min(words, need);
    forall p | 0 <= p < Min(|data|, need)
      ensures m'[c' + 1 + p] == data[p]
    {
      assert Payload(m', c', n)[p] == m'[c' + 1 + p] && Payload(m, c, n)[p] == m[c + 1 + p];
      assert Payload(m, c, |data|)[p] == m[c + 1 + p];
    }
  }

  // ----- programs -----

  /** The arena as one free chunk. */
  ghost function Whole(a: Arena): Chunk { Chunk(a.lo, if a.hi >= a.lo + 2 then a.hi - a.lo - 2 else 0, false) }

  /** What there is to see of the arena, for a program that holds these addresses. */
  ghost function Seen(a: Arena, addrs: seq<nat>): Snapshot
    reads a
  {
    Snapshot(a.chunks, a.lists, addrs)
  }

  method DoAlloc(a: Arena, addrs: seq<nat>, ghost blocks: seq<Block>, size: nat) returns (ok: bool, addrs': seq<nat>)
    requires a.Valid() && Backed(a.chunks, a.mem[..], addrs, blocks)
    modifies a, a.mem, a.buckets
    ensures a.Valid() && Backed(a.chunks, a.mem[..], addrs', Ideal(blocks, Alloc(size), ok))
    ensures Turn(Whole(a), old(Seen(a, addrs)), blocks, Alloc(size), ok, Seen(a, addrs'))
  {
    hide Inv, Backed, Kept, Coalesced, Carve, Splice, Starts, FirstThatFits, CarvedLists, Unfiled;
    ghost var m, b, cs, ls := a.mem[..], a.buckets[..], a.chunks, a.lists;
    StartsDiffer(m, b, cs, ls, a.lo, a.hi);
    var c, k := a.Malloc(size);
    ok, addrs' := c != NULL, addrs + [c];
    if ok {
      CarvedUsed(m, b, cs, ls, a.lo, a.hi, k, ProperAllocSize(size) / 8);
      CarvedSize(cs, k, ProperAllocSize(size) / 8);
      BackedAlloc(cs, a.chunks, m, a.mem[..], k, Words(size), addrs, blocks);
      assert a.chunks[k].start == c && addrs' == addrs + [a.chunks[k].start];
      assert Ideal(blocks, Alloc(size), ok) == blocks + [Live(Words(size), [])];
      assert Allocates(Snapshot(cs, ls, addrs), size, k, Seen(a, addrs'));
    } else {
      BackedNoAlloc(cs, m, addrs, blocks);
      assert a.mem[..] == m && addrs' == addrs + [NULL];
      assert Ideal(blocks, Alloc(size), ok) == blocks + [Dead];
    }
  }

  lemma ResizedAt(cs: seq<Chunk>, i: nat, ds: seq<Chunk>, j: nat)
    requires Resized(cs, i, ds, j)
    ensures i < |cs| && j < |ds| && cs[i] in cs && ds[j] in ds
  {
  }

  /** Only one chunk is that of a block. */
  lemma OneChunkOf(s: Snapshot, blocks: seq<Block>, h: nat, i: nat, size: nat)
    requires Starts(s.chunks) && NoDup(s.chunks) && IsChunkOf(s, blocks, h, i)
    ensures Fails(s, blocks, Resize(h, size)) <==> Unservable(s.chunks, i, ProperAllocSize(size))
  {
    hide Unservable;
    forall j: nat | IsChunkOf(s, blocks, h, j)
      ensures j == i
    {
      assert s.chunks[i] in s.chunks && s.chunks[j] in s.chunks;
    }
  }

  method DoResize(a: Arena, addrs: seq<nat>, ghost blocks: seq<Block>, h: nat, size: nat)
    returns (ok: bool, addrs': seq<nat>)
    requires a.Valid() && Backed(a.chunks, a.mem[..], addrs, blocks) && IsLive(blocks, h) && h < |addrs|
    modifies a, a.mem, a.buckets
    ensures a.Valid() && Backed(a.chunks, a.mem[..], addrs', Ideal(blocks, Resize(h, size), ok))
    ensures Turn(Whole(a), old(Seen(a, addrs)), blocks, Resize(h, size), ok, Seen(a, addrs'))
  {
    hide Inv, Backed, Kept, Coalesced, Starts, Resized, Payload, Unservable, FitsInPlace, Recarved, RecarvedLists,
         Fails;
    ghost var m, b, cs, ls := a.mem[..], a.buckets[..], a.chunks, a.lists;
    StartsDiffer(m, b, cs, ls, a.lo, a.hi);
    ghost var i := ChunkOf(cs, m, addrs, blocks, h);
    OneChunkOf(Snapshot(cs, ls, addrs), blocks, h, i, size);
    var c, j := a.Realloc(addrs[h] + 1, size, i);
    ok, addrs' := c != NULL, addrs;
    if ok {
      addrs' := addrs[h := c];
      StartsDiffer(a.mem[..], a.buckets[..], a.chunks, a.lists, a.lo, a.hi);
      ResizedAt(cs, i, a.chunks, j);
      PayloadPrefix(m, a.mem[..], addrs[h], c, blocks[h].data, cs[i].words, Words(size));
      BackedResized(cs, a.chunks, m, a.mem[..], i, j, addrs, blocks, h,
                    Live(Words(size), blocks[h].data[..Min(|blocks[h].data|, Words(size))]));
      assert Resizes(Snapshot(cs, ls, addrs), blocks, h, size, i, Seen(a, addrs'));
    } else {
      assert a.mem[..] == m;
    }
  }

  method DoRelease(a: Arena, addrs: seq<nat>, blocks: seq<Block>, h: nat)
    requires a.Valid() && Backed(a.chunks, a.mem[..], addrs, blocks) && IsLive(blocks, h) && h < |addrs|
    modifies a, a.mem, a.buckets
    ensures a.Valid() && Backed(a.chunks, a.mem[..], addrs, blocks[h := Dead])
    ensures Turn(Whole(a), old(Seen(a, addrs)), blocks, Release(h), true, Seen(a, addrs))
  {
    hide Inv, Backed, Kept, Coalesced, Starts, Freed, FreedLists;
    ghost var m, b, cs, ls := a.mem[..], a.buckets[..], a.chunks, a.lists;
    StartsDiffer(m, b, cs, ls, a.lo, a.hi);
    ghost var i := ChunkOf(cs, m, addrs, blocks, h);
    FreedUsed(m, b, cs, ls, a.lo, a.hi, i);
    a.Free(addrs[h] + 1, i);
    BackedRelease(cs, a.chunks, m, a.mem[..], i, addrs, blocks, h);
    assert Releases(Snapshot(cs, ls, addrs), blocks, h, i, Seen(a, addrs));
  }

  lemma WholePayload(m: seq<Word>, c: nat, data: seq<Word>)
    requires c + |data| < |m| && m[c + 1..c + 1 + |data|] == data
    ensures Payload(m, c, |data|) == data
  {
  }

  method DoStore(a: Arena, addrs: seq<nat>, blocks: seq<Block>, h: nat, data: seq<Word>)
    requires a.Valid() && Backed(a.chunks, a.mem[..], addrs, blocks)
    requires IsLive(blocks, h) && h < |addrs| && |data| <= blocks[h].capacity
    modifies a.mem
    ensures a.Valid() && Backed(a.chunks, a.mem[..], addrs, blocks[h := Live(blocks[h].capacity, data)])
  {
    hide Inv, Backed, Kept, Coalesced, Starts, Resized, Payload;
    ghost var m, b, cs, ls := a.mem[..], a.buckets[..], a.chunks, a.lists;
    StartsDiffer(m, b, cs, ls, a.lo, a.hi);
    ghost var i := ChunkOf(cs, m, addrs, blocks, h);
    SameChunk(cs, i, m, b, ls, a.lo, a.hi);
    a.CopyIn(addrs[h], data, i);
    WholePayload(a.mem[..], addrs[h], data);
    BackedResized(cs, cs, m, a.mem[..], i, i, addrs, blocks, h, Live(blocks[h].capacity, data));
    assert addrs[h := cs[i].start] == addrs;
  }

  lemma NothingBacked(cs: seq<Chunk>, m: seq<Word>, addrs: seq<nat>, blocks: seq<Block>)
    requires |cs| == 1 && !cs[0].used && |addrs| == |blocks| && forall h :: 0 <= h < |blocks| ==> blocks[h] == Dead
    ensures Backed(cs, m, addrs, blocks)
  {
  }

  /** Resizing a block that is not live does nothing, and cannot fail. */
  lemma DeadNeverFails(s: Snapshot, blocks: seq<Block>, h: nat, size: nat)
    requires !IsLive(blocks, h)
    ensures !Fails(s, blocks, Resize(h, size))
  {
  }

  lemma IsSound(a: Arena, addrs: seq<nat>)
    requires a.Valid()
    ensures Sound(Seen(a, addrs))
  {
    hide ListsOk, TagOk, Tiles, Filed, Starts, NoDup, Coalesced;
    StartsDiffer(a.mem[..], a.buckets[..], a.chunks, a.lists, a.lo, a.hi);
    TilesBounds(a.chunks, a.lo, a.hi);
  }

  /** One command of a program. */
  method Step(a: Arena, addrs: seq<nat>, blocks: seq<Block>, cmd: Command) returns (ok: bool, addrs': seq<nat>)
    requires a.Valid() && Backed(a.chunks, a.mem[..], addrs, blocks) && |addrs| == |blocks|
    modifies a, a.mem, a.buckets
    ensures a.Valid() && Backed(a.chunks, a.mem[..], addrs', Ideal(blocks, cmd, ok))
            && |addrs'| == |Ideal(blocks, cmd, ok)|
    ensures Turn(Whole(a), old(Seen(a, addrs)), blocks, cmd, ok, Seen(a, addrs'))
  {
    hide Arena.Valid, Backs, Owned, Allocates, Resizes, Releases, IsChunkOf;
    ok, addrs' := true, addrs;
    match cmd {
      case Alloc(size) =>
        ok, addrs' := DoAlloc(a, addrs, blocks, size);
      case Resize(h, size) =>
        if IsLive(blocks, h) {
          ok, addrs' := DoResize(a, addrs, blocks, h, size);
        } else {
          DeadNeverFails(Seen(a, addrs), blocks, h, size);
        }
      case Release(h) =>
        if IsLive(blocks, h) {
          DoRelease(a, addrs, blocks, h);
        }
      case Store(h, data) =>
        if IsLive(blocks, h) && |data| <= blocks[h].capacity {
          DoStore(a, addrs, blocks, h, data);
        }
      case Reset =>
        a.Clear();
        NothingBacked(a.chunks, a.mem[..], addrs, Ideal(blocks, cmd, ok));
    }
  }

  /** The n-th command leads from the n-th state to the next. */
  ghost predicate Follows(whole: Chunk, trace: seq<Snapshot>, cmds: seq<Command>, oks: seq<bool>, n: nat)
    requires |trace| == |cmds| + 1 && |oks| == |cmds| && n < |cmds|
  {
    Turn(whole, trace[n], IdealRun(cmds[..n], oks[..n]), cmds[n], oks[n], trace[n + 1])
  }

  /** The states of the arena before each command and after the last: each follows from the one before by the command,
      which succeeds unless it must fail. */
  ghost predicate Traces(whole: Chunk, trace: seq<Snapshot>, cmds: seq<Command>, oks: seq<bool>) {
    && |trace| == |cmds| + 1 && |oks| == |cmds|
    && trace[0] == Snapshot([whole], FiledAlone(whole), []) && (forall n :: 0 <= n < |trace| ==> Sound(trace[n]))
    && forall n :: 0 <= n < |cmds| ==> Follows(whole, trace, cmds, oks, n)
  }

  lemma StillFollows(whole: Chunk, trace: seq<Snapshot>, cmds: seq<Command>, oks: seq<bool>, cmd: Command, ok: bool,
                     s: Snapshot, n: nat)
    requires |trace| == |cmds| + 1 && |oks| == |cmds| && n < |cmds| && Follows(whole, trace, cmds, oks, n)
    ensures Follows(whole, trace + [s], cmds + [cmd], oks + [ok], n)
  {
    hide Turn, IdealRun;
    assert (cmds + [cmd])[..n] == cmds[..n] && (oks + [ok])[..n] == oks[..n];
  }

  lemma LastFollows(whole: Chunk, trace: seq<Snapshot>, cmds: seq<Command>, oks: seq<bool>, ok: bool, s: Snapshot)
    requires |cmds| > 0 && |trace| == |cmds| && |oks| == |cmds| - 1
    requires Turn(whole, trace[|trace| - 1], IdealRun(cmds[..|cmds| - 1], oks), cmds[|cmds| - 1], ok, s)
    ensures Follows(whole, trace + [s], cmds, oks + [ok], |cmds| - 1)
  {
    hide Turn, IdealRun;
    assert (oks + [ok])[..|cmds| - 1] == oks;
  }

  lemma TracesOneMore(whole: Chunk, trace: seq<Snapshot>, cmds: seq<Command>, oks: seq<bool>, cmd: Command, ok: bool,
                      s: Snapshot)
    requires Traces(whole, trace, cmds, oks) && Sound(s)
    requires Turn(whole, trace[|cmds|], IdealRun(cmds, oks), cmd, ok, s)
    ensures Traces(whole, trace + [s], cmds + [cmd], oks + [ok])
  {
    hide Turn, Sound, Follows, IdealRun, FiledAlone;
    var n, ts, cs, os := |cmds|, trace + [s], cmds + [cmd], oks + [ok];
    forall k | 0 <= k < |cs|
      ensures Follows(whole, ts, cs, os, k)
    {
      if k == n {
        assert cs[..n] == cmds;
        LastFollows(whole, trace, cs, oks, ok, s);
      } else {
        StillFollows(whole, trace, cmds, oks, cmd, ok, s, k);
      }
    }
  }

  lemma IdealOneMore(cmds: seq<Command>, oks: seq<bool>, cmd: Command, ok: bool)
    requires |cmds| == |oks|
    ensures IdealRun(cmds + [cmd], oks + [ok]) == Ideal(IdealRun(cmds, oks), cmd, ok)
  {
    assert (cmds + [cmd])[..|cmds|] == cmds && (oks + [ok])[..|oks|] == oks;
  }

  /** Any program on a fresh arena: it cannot tell the arena from separate blocks that keep what is stored in them,
      but for the allocations that find no room, which are exactly those the state of the arena does not allow. */
  method Run(words: nat, lo: nat, hi: nat, cmds: seq<Command>)
    returns (a: Arena, addrs: seq<nat>, blocks: seq<Block>, oks: seq<bool>, ghost trace: seq<Snapshot>)
    requires 0 < lo && lo + 5 <= hi <= words && 8 * words < FLG_USED
    ensures a.Valid() && a.lo == lo && a.hi == hi && a.mem.Length == words
    ensures |oks| == |cmds| && blocks == IdealRun(cmds, oks)
    ensures Backed(a.chunks, a.mem[..], addrs, blocks)
    ensures Traces(Chunk(lo, hi - lo - 2, false), trace, cmds, oks) && trace[|cmds|] == Seen(a, addrs)
  {
    hide Arena.Valid, Backs, Owned, Turn, Sound, Follows;
    a := new Arena(words, lo, hi);
    addrs, blocks, oks := [], [], [];
    trace := [Seen(a, addrs)];
    IsSound(a, addrs);
    NothingBacked(a.chunks, a.mem[..], addrs, blocks);
    for n := 0 to |cmds|
      invariant a.Valid() && fresh(a) && fresh(a.mem) && fresh(a.buckets)
      invariant a.lo == lo && a.hi == hi && a.mem.Length == words
      invariant |oks| == n && |addrs| == |blocks| && Backed(a.chunks, a.mem[..], addrs, blocks)
      invariant blocks == IdealRun(cmds[..n], oks)
      invariant Traces(Whole(a), trace, cmds[..n], oks) && trace[n] == Seen(a, addrs)
    {
      var ok;
      ok, addrs := Step(a, addrs, blocks, cmds[n]);
      assert cmds[..n] + [cmds[n]] == cmds[..n + 1];
      IsSound(a, addrs);
      TracesOneMore(Whole(a), trace, cmds[..n], oks, cmds[n], ok, Seen(a, addrs));
      IdealOneMore(cmds[..n], oks, cmds[n], ok);
      trace := trace + [Seen(a, addrs)];
      blocks := Ideal(blocks, cmds[n], ok);
      oks := oks + [ok];
    }
    assert cmds[..|cmds|] == cmds;
  }

  lemma TracesPrefix(whole: Chunk, trace: seq<Snapshot>, cmds: seq<Command>, oks: seq<bool>)
    requires cmds != [] && Traces(whole, trace, cmds, oks)
    ensures Traces(whole, trace[..|cmds|], cmds[..|cmds| - 1], oks[..|cmds| - 1])
    ensures Turn(whole, trace[|cmds| - 1], IdealRun(cmds[..|cmds| - 1], oks[..|cmds| - 1]), cmds[|cmds| - 1],
                 oks[|cmds| - 1], trace[|cmds|])
  {
    hide Turn, Sound, IdealRun;
    var n := |cmds| - 1;
    var ts, cs, os := trace[..n + 1], cmds[..n], oks[..n];
    assert Follows(whole, trace, cmds, oks, n);
    forall k | 0 <= k < n
      ensures Follows(whole, ts, cs, os, k)
    {
      assert Follows(whole, trace, cmds, oks, k);
      assert cs[..k] == cmds[..k] && os[..k] == oks[..k];
    }
  }

  /** Whole runs are settled by their commands: the same ones fail, and every chunk and address is the same. */
  lemma {:induction false} RunIsSettled(whole: Chunk, cmds: seq<Command>, trace: seq<Snapshot>, oks: seq<bool>,
                                        trace': seq<Snapshot>, oks': seq<bool>)
    requires Traces(whole, trace, cmds, oks) && Traces(whole, trace', cmds, oks')
    ensures trace == trace' && oks == oks'
  {
    hide Turn, Sound, IdealRun;
    var n := |cmds| - 1;
    if cmds != [] {
      TracesPrefix(whole, trace, cmds, oks);
      TracesPrefix(whole, trace', cmds, oks');
      RunIsSettled(whole, cmds[..n], trace[..n + 1], oks[..n], trace'[..n + 1], oks'[..n]);
      assert trace[n] == trace[..n + 1][n] && trace'[n] == trace'[..n + 1][n];
      TurnIsSettled(whole, trace[n], IdealRun(cmds[..n], oks[..n]), cmds[n], oks[n], trace[n + 1],
                    oks'[n], trace'[n + 1]);
      assert trace == trace[..n + 1] + [trace[n + 1]] && trace' == trace'[..n + 1] + [trace'[n + 1]];
      assert oks == oks[..n] + [oks[n]] && oks' == oks'[..n] + [oks'[n]];
    } else {
      assert trace == [trace[0]] && trace' == [trace'[0]];
    }
  }

  lemma OnlyFree(cs: seq<Chunk>, lo: nat, hi: nat)
    requires Tiles(cs, lo, hi) && lo + 5 <= hi && Coalesced(cs) && forall u :: u in cs ==> !u.used
    ensures cs == [Chunk(lo, hi - lo - 2, false)]
  {
    forall i | 0 <= i < |cs|
      ensures !cs[i].used
    {
      assert cs[i] in cs;
    }
    assert |cs| <= 1;
    assert cs[1..] == [];
  }

  /** Once no block is live, the arena is again the one free chunk it was at first. */
  lemma NothingLeft(a: Arena, addrs: seq<nat>, blocks: seq<Block>)
    requires a.Valid() && Backed(a.chunks, a.mem[..], addrs, blocks)
    requires forall h :: 0 <= h < |blocks| ==> blocks[h] == Dead
    ensures a.chunks == [Chunk(a.lo, a.hi - a.lo - 2, false)]
  {
    hide Inv;
    TilesOf(a.mem[..], a.buckets[..], a.chunks, a.lists, a.lo, a.hi);
    assert forall u :: u in a.chunks ==> !u.used;
    OnlyFree(a.chunks, a.lo, a.hi);
  }
}
