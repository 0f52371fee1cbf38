/** Sequence-level facts about carving, fusing and searching the chunks of the
    allocator in nt_mem.c. */
module MemFacts {
  import opened MemLayout
  import opened MemSteps
  import opened Sequences

  /** What taking `need` words out of a chunk leaves: all of it when the rest
      could not hold a chunk of its own, and the low end and a free rest otherwise. */
  ghost function Carve(u: Chunk, need: nat): seq<Chunk>
  {
    if u.words < need + 2 + 3 then [u.Taken()]
    else [Chunk(u.start, need, true), Chunk(u.start + need + 2, u.words - need - 2, false)]
  }

  /** One free chunk in place of the chunks from `a` up to `b`. */
  ghost function Merged(cs: seq<Chunk>, a: nat, b: nat): Chunk
    requires a < b <= |cs|
  {
    var w := cs[b - 1].End() - cs[a].start - 2;
    Chunk(cs[a].start, if w < 0 then 0 else w, false)
  }

  ghost function FirstFree(cs: seq<Chunk>, i: nat): (a: nat)
    requires i < |cs|
    ensures a <= i
  {
    if 0 < i && !cs[i - 1].used then i - 1 else i
  }

  ghost function LastFree(cs: seq<Chunk>, i: nat): (b: nat)
    requires i < |cs|
    ensures i < b <= |cs|
  {
    if i + 1 < |cs| && !cs[i + 1].used then i + 2 else i + 1
  }

  /** The lists once what carving leaves over is filed. */
  ghost function CarvedLists(lists: seq<seq<Chunk>>, u: Chunk, need: nat): seq<seq<Chunk>>
  {
    if u.words < need + 2 + 3 then lists else Pushed(lists, Carve(u, need)[1])
  }

  /** The lists without the free neighbours of the i-th chunk. */
  ghost function UnfiledAround(lists: seq<seq<Chunk>>, cs: seq<Chunk>, i: nat): seq<seq<Chunk>>
    requires i < |cs|
  {
    var ls := if 0 < i && !cs[i - 1].used then Unfiled(lists, cs[i - 1]) else lists;
    if i + 1 < |cs| && !cs[i + 1].used then Unfiled(ls, cs[i + 1]) else ls
  }

  /** The lists after the i-th chunk is freed: its free neighbours gone, the merged chunk in front of its list. */
  ghost function FreedLists(lists: seq<seq<Chunk>>, cs: seq<Chunk>, i: nat): seq<seq<Chunk>>
    requires i < |cs|
  {
    Pushed(UnfiledAround(lists, cs, i), Merged(cs, FirstFree(cs, i), LastFree(cs, i)))
  }

  ghost function Splice<T>(s: seq<T>, i: nat, j: nat, mid: seq<T>): seq<T>
    requires i <= j <= |s|
  {
    s[..i] + mid + s[j..]
  }

  /** What giving the k-th, free, chunk to a request leaves. */
  ghost function Allotted(cs: seq<Chunk>, k: nat, size: nat): seq<Chunk>
    requires k < |cs|
  {
    Splice(cs, k, k + 1, Carve(cs[k], size / 8))
  }

  ghost function AllottedLists(lists: seq<seq<Chunk>>, cs: seq<Chunk>, k: nat, size: nat): seq<seq<Chunk>>
    requires k < |cs|
  {
    CarvedLists(Unfiled(lists, cs[k]), cs[k], size / 8)
  }

  /** Whether some free chunk is large enough. */
  ghost predicate FitsSomewhere(cs: seq<Chunk>, size: nat) {
    exists u :: u in cs && !u.used && size <= u.Size()
  }

  /** Whether one under 256 bytes is. */
  ghost predicate FitsInSmall(cs: seq<Chunk>, size: nat) {
    exists u :: u in cs && !u.used && size <= u.Size() < 256
  }

  /** The k-th chunk is the one to take for a request: it is free and large enough; if a chunk under 256 bytes is
      large enough, it is a smallest one; and on its list those before it are too small. */
  ghost predicate Chosen(cs: seq<Chunk>, lists: seq<seq<Chunk>>, k: nat, size: nat) {
    && k < |cs| && !cs[k].used && size <= cs[k].Size()
    && (FitsInSmall(cs, size) ==> forall u :: u in cs && !u.used && size <= u.Size() ==> cs[k].words <= u.words)
    && FirstThatFits(lists, cs[k], size)
  }

  /** What freeing the i-th chunk leaves: one free chunk for it and its free neighbours. */
  ghost function Freed(cs: seq<Chunk>, i: nat): seq<Chunk>
    requires i < |cs|
  {
    var a, b := FirstFree(cs, i), LastFree(cs, i);
    Splice(cs, a, b, [Merged(cs, a, b)])
  }

  lemma TilesParts(pre: seq<Chunk>, mid: seq<Chunk>, post: seq<Chunk>, lo: nat, hi: nat)
    requires mid != [] && Tiles(pre + (mid + post), lo, hi)
    ensures Tiles(mid, mid[0].start, mid[|mid| - 1].End()) && mid[0].start + 5 <= mid[|mid| - 1].End()
    ensures pre == [] ==> mid[0].start == lo
    ensures post == [] ==> mid[|mid| - 1].End() == hi
    ensures lo <= mid[0].start && mid[|mid| - 1].End() <= hi
  {
    hide Tiles;
    var x := TilesSplit(pre, mid + post, lo, hi);
    var y := TilesSplit(mid, post, x, hi);
    assert mid[0] in mid;
    TilesBounds(mid, x, y);
    TilesBounds(pre, lo, x);
    TilesBounds(post, y, hi);
  }

  /** The chunks from `a` up to `b` tile the words from the first start to the last end. */
  lemma TilesMiddle(cs: seq<Chunk>, a: nat, b: nat, lo: nat, hi: nat)
    requires Tiles(cs, lo, hi) && a < b <= |cs|
    ensures Tiles(cs[a..b], cs[a].start, cs[b - 1].End())
    ensures Merged(cs, a, b).words >= 3 && Merged(cs, a, b).End() == cs[b - 1].End()
    ensures a == 0 ==> cs[a].start == lo
    ensures b == |cs| ==> cs[b - 1].End() == hi
    ensures lo <= cs[a].start && cs[b - 1].End() <= hi
  {
    hide Tiles;
    var mid := cs[a..b];
    assert cs == cs[..a] + (mid + cs[b..]);
    TilesParts(cs[..a], mid, cs[b..], lo, hi);
    assert mid[0] == cs[a] && mid[|mid| - 1] == cs[b - 1];
  }

  /** Neighbours in the sequence are neighbours in memory. */
  lemma TilesNext(cs: seq<Chunk>, i: nat, lo: nat, hi: nat)
    requires Tiles(cs, lo, hi) && i < |cs|
    ensures i == 0 <==> cs[i].start == lo
    ensures i + 1 == |cs| <==> cs[i].End() == hi
    ensures 0 < i ==> cs[i - 1].End() == cs[i].start > lo
    ensures i + 1 < |cs| ==> cs[i].End() == cs[i + 1].start < hi
  {
    assert cs == cs[..i] + cs[i..];
    var x := TilesSplit(cs[..i], cs[i..], lo, hi);
    TilesBounds(cs[..i], lo, x);
    if 0 < i {
      assert cs[..i][i - 1] == cs[i - 1] && cs[i - 1] in cs[..i];
    }
    assert cs[i..] == [cs[i]] + cs[i + 1..];
    var y := TilesSplit([cs[i]], cs[i + 1..], x, hi);
    if i + 1 < |cs| {
      TilesBounds(cs[i + 1..], y, hi);
      assert cs[i + 1..][0] == cs[i + 1] && cs[i + 1] in cs[i + 1..];
    }
  }

  lemma MergedSize(cs: seq<Chunk>, a: nat, b: nat, i: nat, lo: nat, hi: nat)
    requires Tiles(cs, lo, hi) && i < |cs| && a == FirstFree(cs, i) && b == LastFree(cs, i)
    ensures Merged(cs, a, b).words == cs[i].words + (if a < i then cs[i - 1].words + 2 else 0)
            + (if b == i + 2 then cs[i + 1].words + 2 else 0)
    ensures Merged(cs, a, b).words >= 3
  {
    TilesNext(cs, i, lo, hi);
    TilesMiddle(cs, a, b, lo, hi);
  }

  lemma KeptTrans(m0: seq<Word>, m1: seq<Word>, m2: seq<Word>, cs0: seq<Chunk>, cs1: seq<Chunk>,
                  but0: set<nat>, but1: set<nat>, but: set<nat>)
    requires Kept(m0, m1, cs0, but0) && Kept(m1, m2, cs1, but1) && but0 <= but
    requires forall u :: u in cs0 && u.used && u.start !in but ==> u in cs1 && u.start !in but1
    ensures Kept(m0, m2, cs0, but)
  {
  }

  lemma KeptAfterTaking(m0: seq<Word>, m1: seq<Word>, m2: seq<Word>, cs: seq<Chunk>, j: nat)
    requires j < |cs| && !cs[j].used && Kept(m0, m1, cs, {}) && Kept(m1, m2, cs[j := cs[j].Taken()], {})
    ensures Kept(m0, m2, cs, {})
  {
    forall u | u in cs && u.used
      ensures u in cs[j := cs[j].Taken()]
    {
      var q :| 0 <= q < |cs| && cs[q] == u;
      assert cs[j := cs[j].Taken()][q] == u;
    }
    KeptTrans(m0, m1, m2, cs, cs[j := cs[j].Taken()], {}, {}, {});
  }

  /** The chunks once the free ones among those from `a` up to `e` around the i-th are off their lists. */
  ghost function TakenAround(cs: seq<Chunk>, i: nat, a: nat, e: nat): (ds: seq<Chunk>)
    requires a <= i < e <= |cs| && e <= i + 2 && i <= a + 1
    ensures |ds| == |cs|
  {
    var ds := if a < i then cs[a := cs[a].Taken()] else cs;
    if e == i + 2 then ds[i + 1 := cs[i + 1].Taken()] else ds
  }

  lemma FuseTaken(cs: seq<Chunk>, ds: seq<Chunk>, a: nat, b: nat)
    requires |ds| == |cs| && a < b <= |cs|
    requires forall q :: 0 <= q < |cs| ==> ds[q] == if a <= q < b then cs[q].Taken() else cs[q]
    ensures Merged(ds, a, b) == Merged(cs, a, b)
    ensures forall x :: Splice(ds, a, b, [x]) == Splice(cs, a, b, [x])
    ensures forall u :: u in ds[a..b] ==> u.used
  {
  }

  lemma FuseShape(cs: seq<Chunk>, lo: nat, hi: nat, i: nat, a: nat, e: nat)
    requires Tiles(cs, lo, hi) && a <= i < e <= |cs| && e <= i + 2 && i <= a + 1 && cs[i].used
    ensures var ds, u := TakenAround(cs, i, a, e), Merged(cs, a, e).Taken();
            && ds[a].start == cs[a].start && ds[e - 1].End() == cs[e - 1].End() == u.End()
               && Merged(ds, a, e).Taken() == u && u.words >= 3
            && Splice(ds, a, e, [u]) == Splice(cs, a, e, [u])
            && (forall v :: v in ds[a..e] ==> v.used)
            && cs[a].start <= cs[i].start < u.End()
            && (e == i + 2 ==> cs[a].start <= cs[i + 1].start < u.End())
  {
    TilesMiddle(cs, a, e, lo, hi);
    TilesNext(cs, i, lo, hi);
    FuseTaken(cs, TakenAround(cs, i, a, e), a, e);
  }

  lemma CarveInTwo(chunk: nat, chunkSize: nat, size: nat)
    requires chunkSize % 8 == 0 && size % 8 == 0 && MIN_ALLOC <= size && size + 16 + MIN_ALLOC <= chunkSize
    ensures size / 8 <= chunkSize / 8
    ensures chunkSize / 8 >= size / 8 + 5 && (chunkSize - size - 16) / 8 == chunkSize / 8 - size / 8 - 2
            && (chunkSize - size - 16) % 8 == 0
    ensures Carve(Chunk(chunk, chunkSize / 8, true), size / 8)
         == [Chunk(chunk, size / 8, true), Chunk(chunk + 1 + size / 8 + 1, (chunkSize - size - 16) / 8, false)]
  {
  }

  /** Chunks outside the spliced part stay in the sequence. */
  lemma SpliceMembers<T>(s: seq<T>, i: nat, j: nat, mid: seq<T>)
    requires i <= j <= |s|
    ensures forall u :: u in Splice(s, i, j, mid) <==> u in s[..i] || u in mid || u in s[j..]
    ensures forall u :: u in s <==> u in s[..i] || u in s[i..j] || u in s[j..]
  {
  }

  lemma SpliceSecond<T>(s: seq<T>, i: nat, a: T, b: T, c: T)
    requires i < |s|
    ensures Splice(s, i, i + 1, [a, b])[i] == a && Splice(s, i, i + 1, [a, b])[i + 1] == b
    ensures Splice(s, i, i + 1, [a, b])[i + 1 := c] == Splice(s, i, i + 1, [a, c])
  {
  }

  /** The words that survive a split: those of the other used chunks, and the payload of the part that stays. */
  lemma SplitKept(m0: seq<Word>, m1: seq<Word>, m2: seq<Word>, b0: seq<nat>, cs0: seq<Chunk>, cs1: seq<Chunk>,
                  cs2: seq<Chunk>,
                  lists0: seq<seq<Chunk>>, lo: nat, hi: nat, dirty: set<nat>,
                  i: nat, left: Chunk, right: Chunk, rest: Chunk, tag: Word)
    requires Inv(m0, b0, cs0, lists0, lo, hi, dirty)
    requires i < |cs0| && cs0[i].used && left.used && 3 <= left.words
    requires left.start == cs0[i].start && left.End() == right.start == rest.start && right.End() == cs0[i].End()
    requires cs1 == Splice(cs0, i, i + 1, [left, right]) && cs2 == Splice(cs0, i, i + 1, [left, rest])
    requires Kept(m0, m1, cs1, {right.start}) && Kept(m1, m2, cs2, {left.start})
    requires left.start + left.words + 1 < |m1| && m2 == SetTags(m1, left.start, left.words, tag)
    ensures Kept(m0, m2, cs0, {left.start})
    ensures forall p :: left.start < p <= left.start + left.words && p < |m0| ==> m2[p] == m0[p]
  {
    InvGeometry(m0, b0, cs0, lists0, lo, hi, dirty);
    SpliceMembers(cs0, i, i + 1, [left, right]);
    SpliceMembers(cs0, i, i + 1, [left, rest]);
    assert cs0[i..i + 1] == [cs0[i]];
    forall u | u in cs0 && u.used && u.start !in {left.start}
      ensures u in cs1 && u in cs2 && u.start != right.start
    {
      assert Apart(u, cs0[i]);
    }
    forall p | left.start < p <= left.start + left.words && p < |m0|
      ensures m2[p] == m0[p]
    {
      assert left in [left, right] && left in cs1 && left.start <= p < left.End();
    }
  }

  lemma SumOfTwo(u: Chunk, v: Chunk, used: bool)
    ensures Sum([u, v], used) == (if u.used == used then u.words else 0) + (if v.used == used then v.words else 0)
  {
    assert [u, v][1..] == [v] && [v][1..] == [];
    assert Sum([v], used) == if v.used == used then v.words else 0;
  }

  lemma SpliceSum(cs: seq<Chunk>, i: nat, j: nat, mid: seq<Chunk>, used: bool)
    requires i <= j <= |cs|
    ensures Sum(Splice(cs, i, j, mid), used) == Sum(cs, used) - Sum(cs[i..j], used) + Sum(mid, used)
  {
    assert cs == cs[..i] + cs[i..j] + cs[j..];
    SumAppend(cs[..i] + cs[i..j], cs[j..], used);
    SumAppend(cs[..i], cs[i..j], used);
    SumAppend(cs[..i] + mid, cs[j..], used);
    SumAppend(cs[..i], mid, used);
  }

  lemma CarveSums(cs: seq<Chunk>, i: nat, need: nat)
    requires i < |cs| && need <= cs[i].words && !cs[i].used
    ensures var ds := Splice(cs, i, i + 1, Carve(cs[i], need));
            if cs[i].words < need + 5
            then Sum(ds, true) == Sum(cs, true) + cs[i].words && Sum(ds, false) == Sum(cs, false) - cs[i].words
            else Sum(ds, true) == Sum(cs, true) + need && Sum(ds, false) == Sum(cs, false) - need - 2
  {
    SpliceSum(cs, i, i + 1, Carve(cs[i], need), true);
    SpliceSum(cs, i, i + 1, Carve(cs[i], need), false);
    assert cs[i..i + 1] == [cs[i]];
    if cs[i].words >= need + 5 {
      var left, right := Chunk(cs[i].start, need, true), Chunk(cs[i].start + need + 2, cs[i].words - need - 2, false);
      SumOfTwo(left, right, true);
      SumOfTwo(left, right, false);
    }
  }

  lemma CarveTaken(cs: seq<Chunk>, i: nat, need: nat)
    requires i < |cs| && need <= cs[i].words
    ensures Splice(cs[i := cs[i].Taken()], i, i + 1, Carve(cs[i].Taken(), need)) ==
            Splice(cs, i, i + 1, Carve(cs[i], need))
  {
  }

  lemma SpliceSame<T>(s: seq<T>, i: nat)
    requires i < |s|
    ensures Splice(s, i, i + 1, [s[i]]) == s
  {
  }

  lemma CarveCoalesced(cs: seq<Chunk>, i: nat, need: nat)
    requires i < |cs| && need <= cs[i].words && !cs[i].used && Coalesced(cs)
    ensures Coalesced(Splice(cs, i, i + 1, Carve(cs[i], need)))
  {
  }

  lemma TakeKept(m0: seq<Word>, m1: seq<Word>, m2: seq<Word>, b0: seq<nat>, cs0: seq<Chunk>, lists0: seq<seq<Chunk>>,
                 lo: nat, hi: nat, i: nat)
    requires Inv(m0, b0, cs0, lists0, lo, hi, {}) && i < |cs0| && !cs0[i].used
    requires Kept(m0, m1, cs0, {}) && Kept(m1, m2, cs0[i := cs0[i].Taken()], {cs0[i].start})
    ensures Kept(m0, m2, cs0, {})
  {
    InvGeometry(m0, b0, cs0, lists0, lo, hi, {});
    Replaced(cs0, i, cs0[i].Taken());
    assert forall u :: u in cs0 && u.used ==> Apart(u, cs0[i]);
    KeptTrans(m0, m1, m2, cs0, cs0[i := cs0[i].Taken()], {}, {cs0[i].start}, {});
  }

  /** The head of a bucket is NULL just when its list is empty. */
  lemma HeadRead(m: seq<Word>, b: seq<nat>, cs: seq<Chunk>, lists: seq<seq<Chunk>>, lo: nat, hi: nat, k: nat)
    requires Inv(m, b, cs, lists, lo, hi, {}) && k < BUCKET_COUNT
    ensures b[k] == NULL <==> lists[k] == []
    ensures lists[k] != [] ==> b[k] == lists[k][0].start < |m| && ChunkSize(m[b[k]]) == lists[k][0].Size()
  {
    assert b[k] == HeadOf(lists[k]);
    if lists[k] != [] {
      assert lists[k][0] in lists[k] && lists[k][0] in cs;
      TagRead(m, b, cs, lists, lo, hi, {}, lists[k][0]);
    }
  }

  /** The next-link of the j-th chunk on a list leads to the chunk after it. */
  lemma NextRead(m: seq<Word>, b: seq<nat>, cs: seq<Chunk>, lists: seq<seq<Chunk>>, lo: nat, hi: nat, k: nat, j: nat)
    requires Inv(m, b, cs, lists, lo, hi, {}) && k < BUCKET_COUNT && j < |lists[k]|
    ensures lists[k][j].start + 2 < |m|
    ensures j + 1 == |lists[k]| ==> m[lists[k][j].start + 2] == NULL
    ensures j + 1 < |lists[k]| ==>
              var next := lists[k][j + 1];
              m[lists[k][j].start + 2] == next.start != NULL && next.start < |m|
                  && ChunkSize(m[next.start]) == next.Size()
  {
    ListHolds(m, b, cs, lists, lo, hi, {}, k);
    LinkRead(m, lists[k], j);
    if j + 1 < |lists[k]| {
      assert lists[k][j + 1] in lists[k] && lists[k][j + 1] in cs;
      TagRead(m, b, cs, lists, lo, hi, {}, lists[k][j + 1]);
    }
  }

  /** When the buckets from that for `size` up to `index` are empty, every chunk that fits is filed from `index` on. */
  lemma FitsAreAhead(m: seq<Word>, b: seq<nat>, cs: seq<Chunk>, lists: seq<seq<Chunk>>, lo: nat, hi: nat, size: nat,
                     index: nat)
    requires Inv(m, b, cs, lists, lo, hi, {}) && size % 8 == 0 && MIN_ALLOC <= size
             && BucketBySize(size) <= index < BUCKET_COUNT
    requires forall k :: BucketBySize(size) <= k < index ==> lists[k] == []
    ensures forall u :: u in cs && !u.used && size <= u.Size() ==> index <= u.Bucket() && u in lists[u.Bucket()]
  {
  }

  /** What the search has established when it stops at position `j` of list `index`. */
  lemma BestFit(m: seq<Word>, b: seq<nat>, cs: seq<Chunk>, lists: seq<seq<Chunk>>, lo: nat, hi: nat, size: nat,
                index: nat, j: nat)
    returns (i: nat)
    requires Inv(m, b, cs, lists, lo, hi, {}) && size % 8 == 0 && MIN_ALLOC <= size
             && BucketBySize(size) <= index < BUCKET_COUNT
    requires forall k :: BucketBySize(size) <= k < index ==> lists[k] == []
    requires index < BUCKET_COUNT - 1 ==> j == 0 && lists[index] != []
    requires j <= |lists[index]| && forall q :: 0 <= q < j ==> lists[index][q].Size() < size
    requires index == BUCKET_COUNT - 1 && j < |lists[index]| ==> size <= lists[index][j].Size()
    ensures j == |lists[index]| ==> forall u :: u in cs && !u.used ==> u.Size() < size
    ensures j < |lists[index]| ==>
              i < |cs| && cs[i] == lists[index][j] && !cs[i].used && size <= cs[i].Size() && 0 < cs[i].start
    ensures j < |lists[index]| ==> Chosen(cs, lists, i, size)
  {
    i := 0;
    FitsAreAhead(m, b, cs, lists, lo, hi, size, index);
    InvGeometry(m, b, cs, lists, lo, hi, {});
    if j < |lists[index]| {
      var v := lists[index][j];
      assert v in lists[index] && v in cs;
      i :| 0 <= i < |cs| && cs[i] == v;
      if index < BUCKET_COUNT - 1 {
        BucketIsExact(v.words, size / 8);
        forall u | u in cs && !u.used && size <= u.Size()
          ensures v.words <= u.words
        {
          BucketIsExact(u.words, v.words);
        }
      } else {
        forall u | u in cs && !u.used && size <= u.Size()
          ensures u.Size() >= 256
        {
          BucketIsExact(u.words, u.words);
        }
      }
    }
  }

  /** There is only one chunk to take, whatever the chunks and the lists are. */
  lemma ChosenIsUnique(cs: seq<Chunk>, lists: seq<seq<Chunk>>, j: nat, k: nat, size: nat)
    requires NoDup(cs) && Filed(cs, lists) && (forall u :: u in cs ==> u.words >= 3)
    requires Chosen(cs, lists, j, size) && Chosen(cs, lists, k, size)
    ensures j == k
  {
    assert cs[j] in cs && cs[k] in cs;
    BucketIsExact(cs[j].words, cs[k].words);
  }

  // ----- neighbours -----

  /** The tags just below and just above a chunk are those of its neighbours. */
  lemma NeighbourTags(m: seq<Word>, b: seq<nat>, cs: seq<Chunk>, lists: seq<seq<Chunk>>, lo: nat, hi: nat, i: nat)
    requires Inv(m, b, cs, lists, lo, hi, {}) && i < |cs|
    ensures var u := cs[i];
            && 0 < u.start < u.End() <= |m| && u.words >= 3 && ChunkSize(m[u.start]) == u.Size()
            && (0 < i <==> lo < u.start) && (i + 1 < |cs| <==> u.End() < hi)
            && (0 < i ==> IsFree(m[u.start - 1]) == !cs[i - 1].used && ChunkSize(m[u.start - 1]) == cs[i - 1].Size()
                          && u.start - 1 - cs[i - 1].words - 1 == cs[i - 1].start
                             && ChunkSize(m[cs[i - 1].start]) == cs[i - 1].Size())
            && (i + 1 < |cs| ==> u.End() < |m| && IsFree(m[u.End()]) == !cs[i + 1].used
                                 && u.End() == cs[i + 1].start && ChunkSize(m[u.End()]) == cs[i + 1].Size())
  {
    hide Filed, ListsOk;
    TilesNext(cs, i, lo, hi);
    assert cs[i] in cs;
    TagRead(m, b, cs, lists, lo, hi, {}, cs[i]);
    TilesBounds(cs, lo, hi);
    if 0 < i {
      assert cs[i - 1] in cs;
      TagRead(m, b, cs, lists, lo, hi, {}, cs[i - 1]);
    }
    if i + 1 < |cs| {
      assert cs[i + 1] in cs;
      TagRead(m, b, cs, lists, lo, hi, {}, cs[i + 1]);
    }
  }

  lemma SpliceAt<T>(s: seq<T>, a: nat, e: nat, x: T, y: T)
    requires a < e <= |s|
    ensures a < |Splice(s, a, e, [x])| && Splice(s, a, e, [x])[a] == x
    ensures Splice(s, a, e, [x])[a := y] == Splice(s, a, e, [y])
  {
  }

  /** The size that __mem_free computes for the merged chunk is the one that fills the gap. */
  lemma FreedSize(m: seq<Word>, b: seq<nat>, cs: seq<Chunk>, lists: seq<seq<Chunk>>, lo: nat, hi: nat, i: nat)
    requires Inv(m, b, cs, lists, lo, hi, {}) && i < |cs|
    ensures var a, e := FirstFree(cs, i), LastFree(cs, i);
            Merged(cs, a, e) == Chunk(cs[a].start, cs[i].words + (if a < i then cs[i - 1].words + 2 else 0)
                                                               + (if e == i + 2 then cs[i + 1].words + 2 else 0), false)
  {
    MergedSize(cs, FirstFree(cs, i), LastFree(cs, i), i, lo, hi);
  }

  lemma FuseAlone(m: seq<Word>, b: seq<nat>, cs: seq<Chunk>, lists: seq<seq<Chunk>>, lo: nat, hi: nat, i: nat)
    requires Inv(m, b, cs, lists, lo, hi, {}) && i < |cs| && cs[i].used
    ensures forall v :: v in cs[i..i + 1] ==> v.used
    ensures cs[i].start < cs[i].End() && Kept(m, m, cs, {})
  {
  }

  lemma SumOfOne(u: Chunk, used: bool)
    ensures Sum([u], used) == if u.used == used then u.words else 0
  {
  }

  lemma FreedSpan(cs: seq<Chunk>, i: nat)
    requires i < |cs|
    ensures cs[FirstFree(cs, i)..LastFree(cs, i)]
         == (if FirstFree(cs, i) < i then [cs[i - 1]] else []) + [cs[i]]
             + (if LastFree(cs, i) == i + 2 then [cs[i + 1]] else [])
  {
  }

  lemma FreedTotals(cs: seq<Chunk>, lo: nat, hi: nat, i: nat)
    requires Tiles(cs, lo, hi) && i < |cs| && cs[i].used
    ensures Sum(Freed(cs, i), true) == Sum(cs, true) - cs[i].words
    ensures Sum(Freed(cs, i), false) == Sum(cs, false) + cs[i].words + 2 * (LastFree(cs, i) - FirstFree(cs, i) - 1)
  {
    var a, b := FirstFree(cs, i), LastFree(cs, i);
    MergedSize(cs, a, b, i, lo, hi);
    SpliceSum(cs, a, b, [Merged(cs, a, b)], true);
    SpliceSum(cs, a, b, [Merged(cs, a, b)], false);
    var mid := cs[a..b];
    FreedSpan(cs, i);
    forall used: bool
      ensures Sum(mid, used) == (if a < i && !used then cs[i - 1].words else 0) + (if used then cs[i].words else 0)
                                + (if b == i + 2 && !used then cs[i + 1].words else 0)
    {
      SumAppend((if a < i then [cs[i - 1]] else []) + [cs[i]], if b == i + 2 then [cs[i + 1]] else [], used);
      SumAppend(if a < i then [cs[i - 1]] else [], [cs[i]], used);
      SumOfOne(cs[i], used);
      if a < i {
        SumOfOne(cs[i - 1], used);
      }
      if b == i + 2 {
        SumOfOne(cs[i + 1], used);
      }
    }
    SumOfOne(Merged(cs, a, b), true);
    SumOfOne(Merged(cs, a, b), false);
  }

  lemma FreedSums(m: seq<Word>, b: seq<nat>, cs: seq<Chunk>, lists: seq<seq<Chunk>>, lo: nat, hi: nat, i: nat)
    requires Inv(m, b, cs, lists, lo, hi, {}) && i < |cs| && cs[i].used
    ensures Sum(Freed(cs, i), true) == Sum(cs, true) - cs[i].words
    ensures Sum(Freed(cs, i), false) == Sum(cs, false) + cs[i].words + 2 * (LastFree(cs, i) - FirstFree(cs, i) - 1)
  {
    FreedTotals(cs, lo, hi, i);
  }

  lemma FreedCoalesced(cs: seq<Chunk>, i: nat)
    requires i < |cs| && Coalesced(cs) && cs[i].used
    ensures Coalesced(Freed(cs, i))
  {
  }

  lemma FreedOthers(cs: seq<Chunk>, i: nat, ds: seq<Chunk>)
    requires i < |cs| && Separate(cs) && (forall v :: v in cs ==> v.words >= 3) && cs[i].used
    requires var a, e := FirstFree(cs, i), LastFree(cs, i);
             && (forall v :: v in cs ==> v in cs[..a] || v in cs[a..e] || v in cs[e..])
             && (forall v :: v in cs[..a] || v in cs[e..] ==> v in ds)
    ensures forall v :: v in cs && v.used && v.start !in {cs[i].start} ==>
              v in ds && v.start !in {cs[FirstFree(cs, i)].start}
  {
    FreedSpan(cs, i);
    var a := FirstFree(cs, i);
    assert cs[a] in cs;
    forall v | v in cs && v.used && v.start != cs[i].start
      ensures v in ds && v.start != cs[a].start
    {
      assert v == cs[a] || Apart(v, cs[a]);
    }
  }

  lemma FreedKept(m0: seq<Word>, m1: seq<Word>, m2: seq<Word>, b0: seq<nat>, cs: seq<Chunk>, lists: seq<seq<Chunk>>,
                  lo: nat, hi: nat, i: nat)
    requires Inv(m0, b0, cs, lists, lo, hi, {}) && i < |cs| && cs[i].used
    requires var a, e := FirstFree(cs, i), LastFree(cs, i);
             var u := Merged(cs, a, e).Taken();
             Kept(m0, m1, cs, {}) && Kept(m1, m2, Splice(cs, a, e, [u]), {u.start})
    ensures Kept(m0, m2, cs, {cs[i].start})
  {
    hide Inv, Kept;
    var a, e := FirstFree(cs, i), LastFree(cs, i);
    var u := Merged(cs, a, e).Taken();
    InvGeometry(m0, b0, cs, lists, lo, hi, {});
    FreedSpan(cs, i);
    SpliceMembers(cs, a, e, [u]);
    FreedOthers(cs, i, Splice(cs, a, e, [u]));
    KeptTrans(m0, m1, m2, cs, Splice(cs, a, e, [u]), {}, {u.start}, {cs[i].start});
  }

  // ----- resizing -----

  lemma PayloadStep(m: seq<Word>, m': seq<Word>, b: seq<nat>, cs: seq<Chunk>, lists: seq<seq<Chunk>>, lo: nat, hi: nat,
                    i: nat)
    requires Inv(m, b, cs, lists, lo, hi, {}) && |m'| == |m| && i < |cs| && cs[i].used
    requires forall p :: 0 <= p < |m| && !(cs[i].start < p <= cs[i].start + cs[i].words) ==> m'[p] == m[p]
    ensures Inv(m', b, cs, lists, lo, hi, {}) && Kept(m, m', cs, {cs[i].start})
  {
    assert cs[i] in cs && TagOk(m, cs[i]);
    WithinStep(m, m', b, cs, lists, lo, hi, {}, i);
    CleanStep(m', b, cs, lists, lo, hi, {} + {cs[i].start}, i);
    assert {} + {cs[i].start} - {cs[i].start} == {};
  }

  /** The chunks after the i-th, used, one was made to hold `need` words in place, a free next chunk being merged in
      first. */
  ghost function Recarved(cs: seq<Chunk>, i: nat, need: nat): seq<Chunk>
    requires i < |cs|
  {
    Splice(cs, i, LastFree(cs, i), Carve(Merged(cs, i, LastFree(cs, i)).Taken(), need))
  }

  /** The lists after that: a free next chunk gone, what is left over in front of its list. */
  ghost function RecarvedLists(lists: seq<seq<Chunk>>, cs: seq<Chunk>, i: nat, need: nat): seq<seq<Chunk>>
    requires i < |cs|
  {
    CarvedLists(if LastFree(cs, i) == i + 2 then Unfiled(lists, cs[i + 1]) else lists,
                Merged(cs, i, LastFree(cs, i)).Taken(), need)
  }

  /** Whether the i-th chunk can hold a request where it is, with a free next chunk merged in. */
  ghost predicate FitsInPlace(cs: seq<Chunk>, i: nat, size: nat)
    requires i < |cs|
  {
    size <= Merged(cs, i, LastFree(cs, i)).Size()
  }

  /** Whether the i-th chunk holds a request and little would be freed by giving words back. */
  ghost predicate LeftAlone(cs: seq<Chunk>, i: nat, size: nat)
    requires i < |cs|
  {
    cs[i].Size() / 4 < size <= cs[i].Size()
  }

  /** Whether a request cannot be met: not in place, not elsewhere, and not by what freeing the chunk would merge. */
  ghost predicate Unservable(cs: seq<Chunk>, i: nat, size: nat)
    requires i < |cs|
  {
    && cs[i].Size() < size
    && Merged(cs, FirstFree(cs, i), LastFree(cs, i)).Size() < size
    && forall u :: u in cs && !u.used ==> u.Size() < size
  }

  /** Where the i-th chunk is once another one has been given to a request. */
  ghost function Shifted(cs: seq<Chunk>, k: nat, i: nat, size: nat): (ni: nat)
    requires k < |cs| && i < |cs| && i != k
    ensures ni < |Allotted(cs, k, size)| && ni != k && Allotted(cs, k, size)[ni] == cs[i]
  {
    if i < k then i else i - 1 + |Carve(cs[k], size / 8)|
  }

  /** The arena after another chunk, the k-th, was given to the request first, and then the i-th was freed. */
  ghost predicate TakenThenFreed(cs: seq<Chunk>, lists: seq<seq<Chunk>>, i: nat, size: nat, k: nat,
                                 ds: seq<Chunk>, dlists: seq<seq<Chunk>>) {
    && Chosen(cs, lists, k, size) && i < |cs| && i != k
    && var ni := Shifted(cs, k, i, size);
       && ds == Freed(Allotted(cs, k, size), ni)
       && dlists == FreedLists(AllottedLists(lists, cs, k, size), Allotted(cs, k, size), ni)
  }

  /** The arena after the i-th chunk was freed first, and then the k-th of what that left was given to the request. */
  ghost predicate FreedThenTaken(cs: seq<Chunk>, lists: seq<seq<Chunk>>, i: nat, size: nat, k: nat,
                                 ds: seq<Chunk>, dlists: seq<seq<Chunk>>) {
    && i < |cs|
    && var mid, mlists := Freed(cs, i), FreedLists(lists, cs, i);
       && Chosen(mid, mlists, k, size)
       && ds == Allotted(mid, k, size) && dlists == AllottedLists(mlists, mid, k, size)
  }

  /** The arena after a request was met at `start`, not in place: the chunk is freed first only if nothing else fits. */
  ghost predicate Relocated(cs: seq<Chunk>, lists: seq<seq<Chunk>>, i: nat, size: nat,
                            ds: seq<Chunk>, dlists: seq<seq<Chunk>>, start: nat) {
    && i < |cs|
    && if FitsSomewhere(cs, size)
       then exists k: nat :: TakenThenFreed(cs, lists, i, size, k, ds, dlists) && cs[k].start == start
       else exists k: nat :: FreedThenTaken(cs, lists, i, size, k, ds, dlists) && Freed(cs, i)[k].start == start
  }

  /** The arena after the i-th chunk was resized to a request, which it can be, and is at `start`. */
  ghost predicate Resettled(cs: seq<Chunk>, lists: seq<seq<Chunk>>, i: nat, size: nat,
                            ds: seq<Chunk>, dlists: seq<seq<Chunk>>, start: nat) {
    && i < |cs|
    && if LeftAlone(cs, i, size) then ds == cs && dlists == lists && start == cs[i].start
       else if FitsInPlace(cs, i, size)
       then ds == Recarved(cs, i, size / 8) && dlists == RecarvedLists(lists, cs, i, size / 8) && start == cs[i].start
       else Relocated(cs, lists, i, size, ds, dlists, start)
  }

  /** In place: what the chunk and a free next one hold, with the tags between. */
  lemma FitsInPlaceExactly(cs: seq<Chunk>, i: nat, size: nat, lo: nat, hi: nat)
    requires Tiles(cs, lo, hi) && i < |cs|
    ensures FitsInPlace(cs, i, size) <==>
      || size <= cs[i].Size()
      || (i + 1 < |cs| && !cs[i + 1].used && size <= cs[i].Size() + 16 + cs[i + 1].Size())
  {
    hide Tiles;
    TilesNext(cs, i, lo, hi);
  }

  /** Not at all: no free chunk is large enough, nor the chunk with its free neighbours and the tags between. */
  lemma UnservableExactly(cs: seq<Chunk>, i: nat, size: nat, lo: nat, hi: nat)
    requires Tiles(cs, lo, hi) && i < |cs|
    ensures Unservable(cs, i, size) <==>
      && !FitsSomewhere(cs, size)
      && cs[i].Size() + (if 0 < i && !cs[i - 1].used then cs[i - 1].Size() + 16 else 0)
         + (if i + 1 < |cs| && !cs[i + 1].used then cs[i + 1].Size() + 16 else 0) < size
  {
    hide Tiles;
    MergedSize(cs, FirstFree(cs, i), LastFree(cs, i), i, lo, hi);
  }

  lemma RecarvedCoalesced(cs: seq<Chunk>, i: nat, need: nat)
    requires i < |cs| && cs[i].used && Coalesced(cs) && need <= Merged(cs, i, LastFree(cs, i)).words
    ensures Coalesced(Recarved(cs, i, need))
  {
  }

  lemma RecarvedSum(cs: seq<Chunk>, i: nat, need: nat, used: bool)
    requires i < |cs| && cs[i].used && need <= Merged(cs, i, LastFree(cs, i)).words
    ensures var e, u := LastFree(cs, i), Merged(cs, i, LastFree(cs, i));
            Sum(Recarved(cs, i, need), used) == Sum(cs, used)
              - (if used then cs[i].words else if e == i + 2 then cs[i + 1].words else 0)
              + (if u.words < need + 5 then (if used then u.words else 0) else if used then need
                  else u.words - need - 2)
  {
    hide Sum;
    var e, u := LastFree(cs, i), Merged(cs, i, LastFree(cs, i));
    var mid := Carve(u.Taken(), need);
    SpliceSum(cs, i, e, mid, used);
    SumOfOne(cs[i], used);
    if e == i + 2 {
      assert cs[i..e] == [cs[i], cs[i + 1]];
      SumOfTwo(cs[i], cs[i + 1], used);
    } else {
      assert cs[i..e] == [cs[i]];
    }
    if u.words < need + 5 {
      SumOfOne(u.Taken(), used);
    } else {
      SumOfTwo(mid[0], mid[1], used);
    }
  }

  lemma RecarvedSums(cs: seq<Chunk>, i: nat, need: nat)
    requires i < |cs| && cs[i].used && need <= Merged(cs, i, LastFree(cs, i)).words
    ensures var e, u := LastFree(cs, i), Merged(cs, i, LastFree(cs, i));
            && Sum(Recarved(cs, i, need), true) == Sum(cs, true) - cs[i].words
               + (if u.words < need + 5 then u.words else need)
            && Sum(Recarved(cs, i, need), false) == Sum(cs, false) - (if e == i + 2 then cs[i + 1].words else 0)
                                                    + (if u.words < need + 5 then 0 else u.words - need - 2)
  {
    RecarvedSum(cs, i, need, true);
    RecarvedSum(cs, i, need, false);
  }

  lemma SpliceTwice<T>(s: seq<T>, i: nat, e: nat, x: T, mid: seq<T>)
    requires i < e <= |s|
    ensures i < |Splice(s, i, e, [x])| && Splice(s, i, e, [x])[i] == x
    ensures Splice(Splice(s, i, e, [x]), i, i + 1, mid) == Splice(s, i, e, mid)
  {
    var t := Splice(s, i, e, [x]);
    assert t[..i] == s[..i] && t[i + 1..] == s[e..];
  }

  lemma RecarveShape(cs: seq<Chunk>, lo: nat, hi: nat, i: nat, need: nat)
    requires Tiles(cs, lo, hi) && i < |cs| && cs[i].used && Coalesced(cs)
    requires 3 <= need
    ensures var e := LastFree(cs, i);
            var u := Merged(cs, i, e);
            && u.start == cs[i].start && u.words == cs[i].words + (if e == i + 2 then cs[i + 1].words + 2 else 0)
            && (e == i + 1 ==> u.Taken() == cs[i])
            && (need <= u.words ==>
                && Coalesced(Recarved(cs, i, need))
                && Splice(Splice(cs, i, e, [u.Taken()]), i, i + 1, Carve(u.Taken(), need)) == Recarved(cs, i, need)
                && i < |Splice(cs, i, e, [u.Taken()])| && Splice(cs, i, e, [u.Taken()])[i] == u.Taken()
                && Sum(Recarved(cs, i, need), true) == Sum(cs, true) - cs[i].words
                   + (if u.words < need + 5 then u.words else need)
                && Sum(Recarved(cs, i, need), false) == Sum(cs, false) - (if e == i + 2 then cs[i + 1].words else 0)
                                                        + (if u.words < need + 5 then 0 else u.words - need - 2))
  {
    hide Coalesced, Carve, Splice, Sum, Tiles;
    var e := LastFree(cs, i);
    var u := Merged(cs, i, e);
    TilesNext(cs, i, lo, hi);
    if need <= u.words {
      RecarvedCoalesced(cs, i, need);
      RecarvedSums(cs, i, need);
      SpliceTwice(cs, i, e, u.Taken(), Carve(u.Taken(), need));
    }
  }

  /** Words kept while a used chunk takes in the free chunk after it and is then cut again. */
  lemma FusedKept(m0: seq<Word>, m1: seq<Word>, m2: seq<Word>, b0: seq<nat>, cs: seq<Chunk>, lists: seq<seq<Chunk>>,
                  lo: nat, hi: nat,
                  i: nat, need: nat)
    requires Inv(m0, b0, cs, lists, lo, hi, {}) && i + 1 < |cs| && cs[i].used && !cs[i + 1].used
    requires Kept(m0, m1, cs, {}) && Kept(m1, m2, Splice(cs, i, i + 2, [Merged(cs, i, i + 2).Taken()]), {cs[i].start})
    requires forall p :: cs[i].start < p <= cs[i].start + need && p < |m1| ==> m2[p] == m1[p]
    ensures Kept(m0, m2, cs, {cs[i].start})
    ensures forall p :: cs[i].start < p <= cs[i].start + need && p <= cs[i].start + cs[i].words && p < |m0| ==>
              m2[p] == m0[p]
  {
    hide Inv;
    var u := Merged(cs, i, i + 2).Taken();
    var ds := Splice(cs, i, i + 2, [u]);
    InvGeometry(m0, b0, cs, lists, lo, hi, {});
    SpliceMembers(cs, i, i + 2, [u]);
    assert cs[i] in cs;
    assert cs[i..i + 2] == [cs[i], cs[i + 1]];
    assert forall v :: v in cs && v.used && v.start !in {cs[i].start} ==> v in ds && v.start !in {cs[i].start};
    KeptTrans(m0, m1, m2, cs, ds, {}, {cs[i].start}, {cs[i].start});
  }

  // ----- which used chunks there are -----

  /** The used chunks are those of `cs` but with the j-th of `ds`, which is none of the others, in place of the i-th of
      `cs`. */
  ghost predicate Resized(cs: seq<Chunk>, i: nat, ds: seq<Chunk>, j: nat)
  {
    && i < |cs| && j < |ds| && ds[j].used
    && (forall u: Chunk :: u.used ==> (u in ds <==> u == ds[j] || (u in cs && u != cs[i])))
    && (forall u :: u in cs && u.used && u != cs[i] ==> u.start != ds[j].start)
  }

  /** Freeing one used chunk and then carving another out of what is free resizes the first. */
  lemma FreedThenCarved(cs: seq<Chunk>, i: nat, mid: seq<Chunk>, ds: seq<Chunk>, j: nat)
    requires i < |cs| && cs[i].used && j < |ds| && ds[j].used
    requires forall u: Chunk :: u.used ==> (u in mid <==> u in cs && u != cs[i])
    requires forall u: Chunk :: u.used ==> (u in ds <==> u == ds[j] || u in mid)
    requires forall u :: u in mid && u.used ==> u.start != ds[j].start
    ensures Resized(cs, i, ds, j)
  {
  }

  lemma FreedUsed(m: seq<Word>, b: seq<nat>, cs: seq<Chunk>, lists: seq<seq<Chunk>>, lo: nat, hi: nat, i: nat)
    requires Inv(m, b, cs, lists, lo, hi, {}) && i < |cs| && cs[i].used
    ensures forall u: Chunk :: u.used ==> (u in Freed(cs, i) <==> u in cs && u != cs[i])
  {
    hide Inv;
    InvGeometry(m, b, cs, lists, lo, hi, {});
    var a, e := FirstFree(cs, i), LastFree(cs, i);
    SpliceMembers(cs, a, e, [Merged(cs, a, e)]);
    FreedSpan(cs, i);
  }

  lemma TilesOf(m: seq<Word>, b: seq<nat>, cs: seq<Chunk>, lists: seq<seq<Chunk>>, lo: nat, hi: nat)
    requires Inv(m, b, cs, lists, lo, hi, {})
    ensures Tiles(cs, lo, hi) && hi <= |m|
  {
  }

  lemma MergedNext(m: seq<Word>, b: seq<nat>, cs: seq<Chunk>, lists: seq<seq<Chunk>>, lo: nat, hi: nat, i: nat)
    requires Inv(m, b, cs, lists, lo, hi, {}) && i < |cs|
    ensures Merged(cs, i, LastFree(cs, i)).words == cs[i].words
            + (if LastFree(cs, i) == i + 2 then cs[i + 1].words + 2 else 0)
  {
    hide Inv, Tiles;
    TilesOf(m, b, cs, lists, lo, hi);
    TilesNext(cs, i, lo, hi);
  }

  /** The used chunks outside the part of a sequence that holds its i-th and perhaps a free one. */
  lemma UsedAround(cs: seq<Chunk>, i: nat, e: nat)
    requires NoDup(cs) && i < e <= |cs| && e <= i + 2 && cs[i].used && (e == i + 2 ==> !cs[i + 1].used)
    ensures forall u: Chunk :: u.used ==> (u in cs[..i] || u in cs[e..] <==> u in cs && u != cs[i])
  {
    SpliceMembers(cs, i, e, []);
    assert cs[i..e] == if e == i + 2 then [cs[i], cs[i + 1]] else [cs[i]];
    assert cs[i] !in cs[..i] && cs[i] !in cs[e..];
  }

  lemma OwnStart(cs: seq<Chunk>, i: nat)
    requires Separate(cs) && (forall u :: u in cs ==> u.words >= 3) && i < |cs|
    ensures forall u :: u in cs && u != cs[i] ==> u.start != cs[i].start
  {
    assert cs[i] in cs;
    assert forall u :: u in cs && u != cs[i] ==> Apart(u, cs[i]);
  }

  lemma SplicedUsed(cs: seq<Chunk>, i: nat, e: nat, mid: seq<Chunk>)
    requires Separate(cs) && NoDup(cs) && forall u :: u in cs ==> u.words >= 3
    requires i < e <= |cs| && e <= i + 2 && cs[i].used && (e == i + 2 ==> !cs[i + 1].used)
    requires 1 <= |mid| <= 2 && mid[0].used && mid[0].start == cs[i].start && (|mid| == 2 ==> !mid[1].used)
    ensures Resized(cs, i, Splice(cs, i, e, mid), i) && Splice(cs, i, e, mid)[i] == mid[0]
  {
    hide Separate, NoDup;
    SpliceMembers(cs, i, e, mid);
    UsedAround(cs, i, e);
    OwnStart(cs, i);
  }

  lemma RecarvedUsed(m: seq<Word>, b: seq<nat>, cs: seq<Chunk>, lists: seq<seq<Chunk>>, lo: nat, hi: nat, i: nat,
                     need: nat)
    requires Inv(m, b, cs, lists, lo, hi, {}) && i < |cs| && cs[i].used
    ensures Resized(cs, i, Recarved(cs, i, need), i) && Recarved(cs, i, need)[i].start == cs[i].start
    ensures need <= cs[i].words + (if LastFree(cs, i) == i + 2 then cs[i + 1].words + 2 else 0) ==>
              need <= Recarved(cs, i, need)[i].words
  {
    hide Inv;
    MergedNext(m, b, cs, lists, lo, hi, i);
    InvGeometry(m, b, cs, lists, lo, hi, {});
    var e := LastFree(cs, i);
    var mid := Carve(Merged(cs, i, e).Taken(), need);
    SplicedUsed(cs, i, e, mid);
  }

  lemma CarvedUsed(m: seq<Word>, b: seq<nat>, cs: seq<Chunk>, lists: seq<seq<Chunk>>, lo: nat, hi: nat, k: nat,
                   need: nat)
    requires Inv(m, b, cs, lists, lo, hi, {}) && k < |cs| && !cs[k].used
    ensures var ds := Splice(cs, k, k + 1, Carve(cs[k], need));
            && ds[k].used && ds[k].start == cs[k].start
            && (forall u: Chunk :: u.used ==> (u in ds <==> u == ds[k] || u in cs))
            && (forall u :: u in cs && u.used ==> u.start != cs[k].start)
  {
  }

  lemma MoveKept(m0: seq<Word>, m1: seq<Word>, m2: seq<Word>, b0: seq<nat>, cs: seq<Chunk>, lists: seq<seq<Chunk>>,
                 lo: nat, hi: nat,
                 i: nat, k: nat, n: nat)
    requires Inv(m0, b0, cs, lists, lo, hi, {}) && i < |cs| && k < |cs| && cs[k].used && k != i && n <= cs[k].words
    requires Kept(m0, m1, cs, {cs[k].start}) && Kept(m1, m2, cs, {cs[i].start})
    ensures Kept(m0, m2, cs, {cs[i].start, cs[k].start})
    ensures Payload(m2, cs[k].start, n) == Payload(m1, cs[k].start, n)
  {
    hide Inv;
    InvGeometry(m0, b0, cs, lists, lo, hi, {});
    assert cs[k] in cs && cs[i] in cs && Apart(cs[k], cs[i]);
    assert forall p :: cs[k].start <= p < cs[k].End() && p < |m1| ==> m2[p] == m1[p];
  }

  function Min(a: nat, b: nat): nat { if a < b then a else b }

  /** What fits into the merged chunk fits somewhere once the i-th chunk is freed. */
  lemma FreedHolds(cs: seq<Chunk>, i: nat, size: nat)
    requires i < |cs| && size <= Merged(cs, FirstFree(cs, i), LastFree(cs, i)).Size()
    ensures FitsSomewhere(Freed(cs, i), size)
  {
    assert Merged(cs, FirstFree(cs, i), LastFree(cs, i)) in Freed(cs, i);
  }

  lemma CarvedSize(cs: seq<Chunk>, k: nat, need: nat)
    requires k < |cs| && need <= cs[k].words
    ensures var ds := Splice(cs, k, k + 1, Carve(cs[k], need)); k < |ds| && need <= ds[k].words
  {
  }

  lemma CopyKept(m0: seq<Word>, m1: seq<Word>, m2: seq<Word>, m3: seq<Word>, cs0: seq<Chunk>, cs1: seq<Chunk>,
                 cs2: seq<Chunk>,
                 but: set<nat>, c: nat)
    requires Kept(m0, m1, cs0, but) && Kept(m1, m2, cs1, {}) && Kept(m2, m3, cs2, {c})
    requires forall u :: u in cs0 && u.used && u.start !in but ==> u in cs1 && u in cs2 && u.start != c
    ensures Kept(m0, m3, cs0, but)
  {
  }

  lemma SameChunk(cs: seq<Chunk>, i: nat, m: seq<Word>, b: seq<nat>, lists: seq<seq<Chunk>>, lo: nat, hi: nat)
    requires Inv(m, b, cs, lists, lo, hi, {}) && i < |cs| && cs[i].used
    ensures Resized(cs, i, cs, i) && forall but :: Kept(m, m, cs, but)
  {
  }

  lemma PayloadKept(m: seq<Word>, m': seq<Word>, cs: seq<Chunk>, i: nat, n: nat)
    requires i < |cs| && cs[i].used && n <= cs[i].words && Kept(m, m', cs, {})
    ensures Payload(m', cs[i].start, n) == Payload(m, cs[i].start, n)
  {
  }

  // ----- the initial state -----

  lemma OneChunk(m: seq<Word>, b: seq<nat>, u: Chunk, lists: seq<seq<Chunk>>, hi: nat)
    requires 0 < u.start && u.words >= 3 && !u.used && u.End() == hi <= |m| && 8 * |m| < FLG_USED
    requires TagOk(m, u) && m[u.start + 1] == NULL && m[u.start + 2] == NULL
    requires |b| == BUCKET_COUNT && lists == FiledAlone(u)
    requires forall k :: 0 <= k < BUCKET_COUNT ==> b[k] == if k == u.Bucket() then u.start else NULL
    ensures Inv(m, b, [u], lists, u.start, hi, {}) && Coalesced([u])
    ensures Sum([u], true) == 0 && Sum([u], false) == u.words
  {
    SumOfOne(u, true);
    SumOfOne(u, false);
    assert Tiles([u], u.start, hi) by {
      assert [u][1..] == [];
    }
    assert Filed([u], lists);
    forall k | 0 <= k < |b|
      ensures ListOk(m, lists[k])
    {
      assert lists[k] != [] ==> lists[k] == [u] && LinkOk(m, lists[k], 0);
    }
  }
}
