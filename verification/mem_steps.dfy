/** The allocator's individual memory writes, as functions on the words and on
    the bucket heads, and what each keeps of the arena invariant. */
module MemSteps {
  import opened MemLayout
  import opened Sequences

  // ----- generic facts -----

  lemma InvGeometry(m: seq<Word>, b: seq<nat>, cs: seq<Chunk>, lists: seq<seq<Chunk>>, lo: nat, hi: nat,
                    dirty: set<nat>)
    requires Inv(m, b, cs, lists, lo, hi, dirty)
    ensures Separate(cs) && NoDup(cs)
    ensures 0 < lo && hi <= |m| && 8 * |m| < FLG_USED && |b| == |lists| == BUCKET_COUNT
    ensures forall u :: u in cs ==> lo <= u.start && u.End() <= hi && u.words >= 3
  {
    TilesSeparate(cs, lo, hi);
    TilesBounds(cs, lo, hi);
  }

  lemma Replaced(cs: seq<Chunk>, i: nat, v: Chunk)
    requires i < |cs| && NoDup(cs)
    ensures forall u :: u in cs[i := v] <==> u == v || (u in cs && u != cs[i])
  {
    var ds := cs[i := v];
    assert ds[i] == v;
    forall u | u in cs && u != cs[i]
      ensures u in ds
    {
      var j :| 0 <= j < |cs| && cs[j] == u;
      assert ds[j] == u;
    }
  }

  lemma {:induction false} TilesRestate(cs: seq<Chunk>, i: nat, v: Chunk, x: nat, y: nat)
    requires i < |cs| && Tiles(cs, x, y) && v.start == cs[i].start && v.words == cs[i].words
    ensures Tiles(cs[i := v], x, y)
  {
    if i == 0 {
      assert cs[i := v][1..] == cs[1..];
    } else {
      TilesRestate(cs[1..], i - 1, v, cs[0].End(), y);
      assert cs[i := v][1..] == cs[1..][i - 1 := v];
    }
  }

  /** Writes that avoid the link words of a list keep the list. */
  lemma ListFrame(m: seq<Word>, m': seq<Word>, l: seq<Chunk>)
    requires ListOk(m, l) && |m'| == |m|
    requires forall u :: u in l && u.start + 2 < |m| ==>
               m'[u.start + 1] == m[u.start + 1] && m'[u.start + 2] == m[u.start + 2]
    ensures ListOk(m', l)
  {
    forall i | 0 <= i < |l|
      ensures LinkOk(m', l, i)
    {
      assert LinkOk(m, l, i) && l[i] in l;
    }
  }

  // ----- unlinking -----

  /** The words after mem_unlink_chunk: the link fields of the two neighbours skip the chunk between them. */
  ghost function Bypass(m: seq<Word>, prev: nat, next: nat): seq<Word>
    requires prev < |m| && next < |m| <= FLG_USED
    requires prev != NULL ==> prev + 2 < |m|
    requires next != NULL ==> next + 1 < |m|
  {
    var m1 := if prev != NULL then m[prev + 2 := next] else m;
    if next != NULL then m1[next + 1 := prev] else m1
  }

  ghost predicate GoodList(m: seq<Word>, l: seq<Chunk>)
  {
    && ListOk(m, l) && NoDup(l) && Separate(l) && |m| <= FLG_USED
    && forall u :: u in l ==> 0 < u.start && u.words >= 3 && u.End() <= |m|
  }

  lemma LinkWord(m: seq<Word>, l: seq<Chunk>, j: nat, q: nat)
    requires GoodList(m, l) && j < |l| && q < |l| && q != j
    requires PrevOf(l, j) + 2 < |m| && NextOf(l, j) + 2 < |m| && l[q].start + 2 < |m|
    ensures Bypass(m, PrevOf(l, j), NextOf(l, j))[l[q].start + 1] == if q == j + 1 then PrevOf(l, j)
            else m[l[q].start + 1]
    ensures Bypass(m, PrevOf(l, j), NextOf(l, j))[l[q].start + 2] == if q + 1 == j then NextOf(l, j)
            else m[l[q].start + 2]
  {
    assert l[q] in l;
    if j > 0 && q != j - 1 {
      assert l[j - 1] in l && l[q] != l[j - 1] && Apart(l[q], l[j - 1]);
    }
    if j + 1 < |l| && q != j + 1 {
      assert l[j + 1] in l && l[q] != l[j + 1] && Apart(l[q], l[j + 1]);
    }
    if j > 0 {
      assert l[j - 1] in l && l[j - 1].start > 0;
    }
    if j + 1 < |l| {
      assert l[j + 1] in l && l[j + 1].start > 0;
    }
  }

  lemma BypassKeepsLink(m: seq<Word>, l: seq<Chunk>, j: nat, i: nat)
    requires GoodList(m, l) && j < |l| && i < |l| - 1
    requires PrevOf(l, j) + 2 < |m| && NextOf(l, j) + 2 < |m|
    ensures LinkOk(Bypass(m, PrevOf(l, j), NextOf(l, j)), RemoveAt(l, j), i)
  {
    var q := if i < j then i else i + 1;
    var u := l[q];
    assert LinkOk(m, l, q) && u in l && u.words >= 3;
    var m' := Bypass(m, PrevOf(l, j), NextOf(l, j));
    assert m'[u.start + 1] == if q == j + 1 then PrevOf(l, j) else m[u.start + 1] by {
      LinkWord(m, l, j, q);
    }
    assert m'[u.start + 2] == if q + 1 == j then NextOf(l, j) else m[u.start + 2] by {
      LinkWord(m, l, j, q);
    }
  }

  lemma BypassKeepsList(m: seq<Word>, l: seq<Chunk>, j: nat)
    requires GoodList(m, l) && j < |l|
    ensures PrevOf(l, j) + 2 < |m| && NextOf(l, j) + 2 < |m|
    ensures ListOk(Bypass(m, PrevOf(l, j), NextOf(l, j)), RemoveAt(l, j))
    ensures HeadOf(RemoveAt(l, j)) == if j > 0 then HeadOf(l) else NextOf(l, j)
    ensures PrevOf(l, j) == NULL <==> j == 0
    ensures NextOf(l, j) == NULL <==> j == |l| - 1
  {
    assert l[j] in l;
    assert j > 0 ==> l[j - 1] in l;
    assert j + 1 < |l| ==> l[j + 1] in l;
    forall i | 0 <= i < |l| - 1
      ensures LinkOk(Bypass(m, PrevOf(l, j), NextOf(l, j)), RemoveAt(l, j), i)
    {
      BypassKeepsLink(m, l, j, i);
    }
  }

  /** The words unlinking writes belong to other free chunks of the same list. */
  lemma BypassFrame(m: seq<Word>, l: seq<Chunk>, j: nat, v: Chunk)
    requires GoodList(m, l) && j < |l| && v !in l
    requires PrevOf(l, j) + 2 < |m| && NextOf(l, j) + 2 < |m|
    requires forall u :: u in l ==> Apart(u, v)
    ensures forall p :: v.start <= p < v.End() && p < |m| ==> Bypass(m, PrevOf(l, j), NextOf(l, j))[p] == m[p]
  {
    if j > 0 {
      assert l[j - 1] in l;
    }
    if j + 1 < |l| {
      assert l[j + 1] in l;
    }
  }

  lemma FiledWithout(cs: seq<Chunk>, lists: seq<seq<Chunk>>, i: nat, j: nat)
    requires i < |cs| && NoDup(cs) && Filed(cs, lists) && !cs[i].used
    requires j < |lists[cs[i].Bucket()]| && lists[cs[i].Bucket()][j] == cs[i]
    ensures var k := cs[i].Bucket(); Filed(cs[i := cs[i].Taken()], lists[k := RemoveAt(lists[k], j)])
  {
    var k := cs[i].Bucket();
    Replaced(cs, i, cs[i].Taken());
    RemoveAtMembers(lists[k], j);
    var ds, lists' := cs[i := cs[i].Taken()], lists[k := RemoveAt(lists[k], j)];
    forall u | u in ds && !u.used
      ensures u in lists'[u.Bucket()]
    {
      assert u in cs && u != cs[i];
    }
    forall q, u | 0 <= q < |lists'| && u in lists'[q]
      ensures u in ds && !u.used && u.Bucket() == q
    {
      assert u in lists[q] && u != cs[i];
    }
  }

  /** What the tag and payload arguments below need of the arena. */
  ghost predicate Holds(m: seq<Word>, cs: seq<Chunk>, l: seq<Chunk>)
  {
    && GoodList(m, l) && Separate(cs)
    && (forall u :: u in cs ==> u.words >= 3)
    && (forall u :: u in l ==> u in cs && !u.used)
  }

  lemma BypassKeepsTags(m: seq<Word>, cs: seq<Chunk>, l: seq<Chunk>, j: nat)
    requires Holds(m, cs, l) && j < |l|
    requires PrevOf(l, j) + 2 < |m| && NextOf(l, j) + 2 < |m|
    ensures forall v :: v in cs && TagOk(m, v) ==> TagOk(Bypass(m, PrevOf(l, j), NextOf(l, j)), v)
  {
  }

  lemma BypassKeepsPayload(m: seq<Word>, cs: seq<Chunk>, l: seq<Chunk>, j: nat)
    requires Holds(m, cs, l) && j < |l|
    requires PrevOf(l, j) + 2 < |m| && NextOf(l, j) + 2 < |m|
    ensures Kept(m, Bypass(m, PrevOf(l, j), NextOf(l, j)), cs, {})
  {
  }

  lemma BypassKeepsLists(m: seq<Word>, b: seq<nat>, cs: seq<Chunk>, lists: seq<seq<Chunk>>, k: nat, j: nat)
    requires ListsOk(m, b, lists) && Filed(cs, lists)
    requires k < |b| && Holds(m, cs, lists[k]) && j < |lists[k]|
    requires PrevOf(lists[k], j) + 2 < |m| && NextOf(lists[k], j) + 2 < |m|
    ensures var prev, next := PrevOf(lists[k], j), NextOf(lists[k], j);
            ListsOk(Bypass(m, prev, next), if prev != NULL then b else b[k := next], lists[k := RemoveAt(lists[k], j)])
  {
    var l := lists[k];
    var m' := Bypass(m, PrevOf(l, j), NextOf(l, j));
    BypassKeepsList(m, l, j);
    var lists' := lists[k := RemoveAt(l, j)];
    forall q | 0 <= q < |b|
      ensures ListOk(m', lists'[q])
    {
      if q != k {
        forall v | v in lists[q]
          ensures v.start + 2 < |m| ==> m'[v.start + 1] == m[v.start + 1] && m'[v.start + 2] == m[v.start + 2]
        {
          BypassFrame(m, l, j, v);
        }
        ListFrame(m, m', lists[q]);
      }
    }
  }

  lemma ListHolds(m: seq<Word>, b: seq<nat>, cs: seq<Chunk>, lists: seq<seq<Chunk>>, lo: nat, hi: nat, dirty: set<nat>,
                  k: nat)
    requires Inv(m, b, cs, lists, lo, hi, dirty) && k < |lists|
    ensures Holds(m, cs, lists[k])
  {
    InvGeometry(m, b, cs, lists, lo, hi, dirty);
  }

  lemma FreeIsListed(m: seq<Word>, b: seq<nat>, cs: seq<Chunk>, lists: seq<seq<Chunk>>, lo: nat, hi: nat,
                     dirty: set<nat>, u: Chunk)
    requires Inv(m, b, cs, lists, lo, hi, dirty) && u in cs && !u.used
    ensures u in lists[u.Bucket()]
  {
  }

  /** The left tag of a clean chunk tells its size and its state. */
  lemma TagRead(m: seq<Word>, b: seq<nat>, cs: seq<Chunk>, lists: seq<seq<Chunk>>, lo: nat, hi: nat, dirty: set<nat>,
                u: Chunk)
    requires Inv(m, b, cs, lists, lo, hi, dirty)
    requires u in cs && (u.start !in dirty || !u.used)
    ensures u.words >= 3 && u.End() <= |m| && 0 < u.start
    ensures ChunkSize(m[u.start]) == ChunkSize(m[u.start + u.words + 1]) == u.Size()
    ensures IsFree(m[u.start]) == IsFree(m[u.start + u.words + 1]) == !u.used
  {
    InvGeometry(m, b, cs, lists, lo, hi, dirty);
    assert TagOk(m, u);
  }

  lemma LinkRead(m: seq<Word>, l: seq<Chunk>, j: nat)
    requires GoodList(m, l) && j < |l|
    ensures l[j].start + 2 < |m|
    ensures m[l[j].start + 1] == PrevOf(l, j) && PrevOf(l, j) + 2 < |m|
    ensures m[l[j].start + 2] == NextOf(l, j) && NextOf(l, j) + 2 < |m|
  {
    assert LinkOk(m, l, j) && l[j] in l;
    assert j > 0 ==> l[j - 1] in l;
    assert j + 1 < |l| ==> l[j + 1] in l;
  }

  /** A free chunk is somewhere on the list of its size, and its link words name its neighbours there. */
  lemma FindLink(m: seq<Word>, b: seq<nat>, cs: seq<Chunk>, lists: seq<seq<Chunk>>, lo: nat, hi: nat, dirty: set<nat>,
                 i: nat)
    returns (j: nat)
    requires Inv(m, b, cs, lists, lo, hi, dirty)
    requires i < |cs| && !cs[i].used
    ensures Holds(m, cs, lists[cs[i].Bucket()])
    ensures j < |lists[cs[i].Bucket()]| && lists[cs[i].Bucket()][j] == cs[i]
    ensures cs[i].start + 2 < |m| && ChunkSize(m[cs[i].start]) == cs[i].Size()
    ensures m[cs[i].start + 1] == PrevOf(lists[cs[i].Bucket()], j) && m[cs[i].start + 1] + 2 < |m|
    ensures m[cs[i].start + 2] == NextOf(lists[cs[i].Bucket()], j) && m[cs[i].start + 2] + 2 < |m|
  {
    hide Inv, Tiles, ListOk, TagOk, NoDup, Separate;
    InvGeometry(m, b, cs, lists, lo, hi, dirty);
    ListHolds(m, b, cs, lists, lo, hi, dirty, cs[i].Bucket());
    TagRead(m, b, cs, lists, lo, hi, dirty, cs[i]);
    FreeIsListed(m, b, cs, lists, lo, hi, dirty, cs[i]);
    j :| 0 <= j < |lists[cs[i].Bucket()]| && lists[cs[i].Bucket()][j] == cs[i];
    LinkRead(m, lists[cs[i].Bucket()], j);
  }

  lemma UnlinkedInv(m: seq<Word>, b: seq<nat>, cs: seq<Chunk>, lists: seq<seq<Chunk>>, lo: nat, hi: nat,
                    dirty: set<nat>,
                    i: nat, j: nat, m': seq<Word>, b': seq<nat>)
    requires Inv(m, b, cs, lists, lo, hi, dirty) && i < |cs| && !cs[i].used && |m'| == |m|
    requires var k := cs[i].Bucket();
             j < |lists[k]| && lists[k][j] == cs[i] && ListsOk(m', b', lists[k := RemoveAt(lists[k], j)])
    requires forall v :: v in cs && TagOk(m, v) ==> TagOk(m', v)
    ensures var k := cs[i].Bucket();
            Inv(m', b', cs[i := cs[i].Taken()], lists[k := RemoveAt(lists[k], j)], lo, hi, dirty + {cs[i].start})
  {
    hide ListsOk, TagOk;
    InvGeometry(m, b, cs, lists, lo, hi, dirty);
    TilesRestate(cs, i, cs[i].Taken(), lo, hi);
    FiledWithout(cs, lists, i, j);
    Replaced(cs, i, cs[i].Taken());
  }

  /** Unlinking a free chunk takes it off the lists and changes no used chunk's words. */
  lemma UnlinkStep(m: seq<Word>, b: seq<nat>, cs: seq<Chunk>, lists: seq<seq<Chunk>>, lo: nat, hi: nat, dirty: set<nat>,
                   i: nat)
    returns (prev: nat, next: nat, lists': seq<seq<Chunk>>)
    requires Inv(m, b, cs, lists, lo, hi, dirty)
    requires i < |cs| && !cs[i].used
    ensures var c, k := cs[i].start, cs[i].Bucket();
            && c + 2 < |m| && ChunkSize(m[c]) == cs[i].Size()
            && prev == m[c + 1] && next == m[c + 2] && prev + 2 < |m| && next + 2 < |m|
            && Inv(Bypass(m, prev, next), if prev != NULL then b else b[k := next],
                   cs[i := cs[i].Taken()], lists', lo, hi, dirty + {c})
            && Kept(m, Bypass(m, prev, next), cs, {})
    ensures lists' == Unfiled(lists, cs[i])
  {
    var k := cs[i].Bucket();
    var j := FindLink(m, b, cs, lists, lo, hi, dirty, i);
    MinusIsRemoveAt(lists[k], j);
    prev, next, lists' := m[cs[i].start + 1], m[cs[i].start + 2], lists[k := RemoveAt(lists[k], j)];
    BypassKeepsLists(m, b, cs, lists, k, j);
    BypassKeepsPayload(m, cs, lists[k], j);
    BypassKeepsTags(m, cs, lists[k], j);
    UnlinkedInv(m, b, cs, lists, lo, hi, dirty, i, j, Bypass(m, prev, next), if prev != NULL then b else b[k := next]);
  }

  // ----- linking -----

  /** The words after mem_link_chunk puts the chunk at `c` before the list headed by `head`. */
  ghost function Prepend(m: seq<Word>, c: nat, head: nat): seq<Word>
    requires c + 2 < |m| && head + 1 < |m| <= FLG_USED
  {
    var m1 := if head != NULL then m[head + 1 := c] else m;
    m1[c + 1 := NULL][c + 2 := head]
  }

  lemma PrependKeepsList(m: seq<Word>, l: seq<Chunk>, v: Chunk)
    requires GoodList(m, l) && v.words >= 3 && 0 < v.start && v.End() <= |m|
    requires forall u :: u in l ==> u != v && Apart(u, v)
    ensures HeadOf(l) + 2 < |m|
    ensures ListOk(Prepend(m, v.start, HeadOf(l)), [v] + l)
  {
    assert l != [] ==> l[0] in l;
    var m', r := Prepend(m, v.start, HeadOf(l)), [v] + l;
    forall i | 0 <= i < |r|
      ensures LinkOk(m', r, i)
    {
      if i > 0 {
        assert r[i] == l[i - 1] && l[i - 1] in l && LinkOk(m, l, i - 1);
        assert i > 1 ==> l[i - 1] != l[0] && Apart(l[i - 1], l[0]);
      }
    }
  }

  /** The words linking writes are the chunk's own link words and one of the old head's. */
  lemma PrependFrame(m: seq<Word>, l: seq<Chunk>, v: Chunk, w: Chunk)
    requires GoodList(m, l) && v.words >= 3 && v.End() <= |m| && HeadOf(l) + 2 < |m|
    requires Apart(v, w) && w !in l && forall u :: u in l ==> Apart(u, w)
    ensures forall p :: w.start <= p < w.End() && p < |m| ==> Prepend(m, v.start, HeadOf(l))[p] == m[p]
  {
    assert l != [] ==> l[0] in l;
  }

  lemma PrependKeepsTag(m: seq<Word>, l: seq<Chunk>, v: Chunk, w: Chunk)
    requires GoodList(m, l) && v.words >= 3 && v.End() <= |m| && HeadOf(l) + 2 < |m|
    requires v == w || Apart(v, w)
    requires forall u :: u in l ==> u == w || Apart(u, w)
    requires TagOk(m, w)
    ensures TagOk(Prepend(m, v.start, HeadOf(l)), w)
  {
    assert l != [] ==> l[0] in l;
  }

  lemma FiledWith(cs: seq<Chunk>, lists: seq<seq<Chunk>>, i: nat, v: Chunk)
    requires i < |cs| && NoDup(cs) && Filed(cs, lists) && cs[i].used && !v.used && v !in cs
    ensures Filed(cs[i := v], lists[v.Bucket() := [v] + lists[v.Bucket()]])
  {
    var k := v.Bucket();
    Replaced(cs, i, v);
    var ds, lists' := cs[i := v], lists[k := [v] + lists[k]];
    forall u | u in ds && !u.used
      ensures u in lists'[u.Bucket()]
    {
      assert u == v || u in lists[u.Bucket()];
    }
    forall q, u | 0 <= q < |lists'| && u in lists'[q]
      ensures u in ds && !u.used && u.Bucket() == q
    {
      if q == k && u == v {
        assert ds[i] == v;
      } else {
        assert u in lists[q] && u in cs && u != cs[i];
      }
    }
  }

  lemma PrependKeepsLists(m: seq<Word>, b: seq<nat>, cs: seq<Chunk>, lists: seq<seq<Chunk>>, v: Chunk)
    requires ListsOk(m, b, lists) && Filed(cs, lists)
    requires Holds(m, cs, lists[v.Bucket()]) && v.words >= 3 && 0 < v.start && v.End() <= |m|
    requires forall u :: u in cs && !u.used ==> Apart(u, v) && u != v
    ensures var k := v.Bucket();
            && b[k] + 2 < |m|
            && ListsOk(Prepend(m, v.start, b[k]), b[k := v.start], lists[k := [v] + lists[k]])
  {
    var k := v.Bucket();
    var l := lists[k];
    PrependKeepsList(m, l, v);
    var m', lists' := Prepend(m, v.start, b[k]), lists[k := [v] + l];
    forall q | 0 <= q < |b|
      ensures ListOk(m', lists'[q])
    {
      if q != k {
        forall w | w in lists[q]
          ensures w.start + 2 < |m| ==> m'[w.start + 1] == m[w.start + 1] && m'[w.start + 2] == m[w.start + 2]
        {
          PrependFrame(m, l, v, w);
        }
        ListFrame(m, m', lists[q]);
      }
    }
  }

  lemma PrependKeepsRest(m: seq<Word>, cs: seq<Chunk>, l: seq<Chunk>, i: nat, v: Chunk)
    requires Holds(m, cs, l) && NoDup(cs) && i < |cs| && cs[i].used && v.start == cs[i].start && v.words == cs[i].words
    requires v.End() <= |m| && HeadOf(l) + 2 < |m|
    ensures forall w :: w in cs && w != cs[i] && TagOk(m, w) ==> TagOk(Prepend(m, v.start, HeadOf(l)), w)
    ensures TagOk(m, v) ==> TagOk(Prepend(m, v.start, HeadOf(l)), v)
    ensures Kept(m, Prepend(m, v.start, HeadOf(l)), cs, {v.start})
  {
    assert forall u :: u in l ==> Apart(u, cs[i]);
    forall w | w in cs && w != cs[i] && TagOk(m, w)
      ensures TagOk(Prepend(m, v.start, HeadOf(l)), w)
    {
      assert Apart(cs[i], w);
      assert forall u :: u in l ==> u == w || Apart(u, w);
      PrependKeepsTag(m, l, v, w);
    }
    if TagOk(m, v) {
      PrependKeepsTag(m, l, v, v);
    }
    forall w, p | w in cs && w.used && w.start !in {v.start} && w.start <= p < w.End() && p < |m|
      ensures Prepend(m, v.start, HeadOf(l))[p] == m[p]
    {
      assert Apart(cs[i], w);
      assert w !in l && forall u :: u in l ==> Apart(u, w);
      PrependFrame(m, l, v, w);
    }
  }

  lemma LinkedInv(m: seq<Word>, b: seq<nat>, cs: seq<Chunk>, lists: seq<seq<Chunk>>, lo: nat, hi: nat, dirty: set<nat>,
                  i: nat, v: Chunk, m': seq<Word>, b': seq<nat>)
    requires Inv(m, b, cs, lists, lo, hi, dirty) && |m'| == |m|
    requires i < |cs| && cs[i].used && v == Chunk(cs[i].start, cs[i].words, false) && TagOk(m', v)
    requires forall w :: w in cs && w != cs[i] && TagOk(m, w) ==> TagOk(m', w)
    requires ListsOk(m', b', lists[v.Bucket() := [v] + lists[v.Bucket()]])
    ensures Inv(m', b', cs[i := v], lists[v.Bucket() := [v] + lists[v.Bucket()]], lo, hi, dirty - {v.start})
  {
    hide ListsOk, Filed, Tiles, TagOk;
    InvGeometry(m, b, cs, lists, lo, hi, dirty);
    assert cs[i] in cs;
    assert forall u :: u in cs && u != cs[i] ==> Apart(u, cs[i]) && u.start != v.start;
    TilesRestate(cs, i, v, lo, hi);
    assert v !in cs;
    FiledWith(cs, lists, i, v);
    Replaced(cs, i, v);
    forall u | u in cs[i := v] && u.start !in dirty - {v.start}
      ensures TagOk(m', u)
    {
      if u != v {
        assert u.start !in dirty && TagOk(m, u);
      }
    }
  }

  /** Linking a chunk whose tags say it is free puts it on its list and changes no other used chunk's words. */
  lemma LinkStep(m: seq<Word>, b: seq<nat>, cs: seq<Chunk>, lists: seq<seq<Chunk>>, lo: nat, hi: nat, dirty: set<nat>,
                 i: nat, v: Chunk)
    requires Inv(m, b, cs, lists, lo, hi, dirty)
    requires i < |cs| && cs[i].used && v == Chunk(cs[i].start, cs[i].words, false) && TagOk(m, v)
    ensures var k := v.Bucket();
            && v.start + 2 < |m| && b[k] + 2 < |m|
            && Inv(Prepend(m, v.start, b[k]), b[k := v.start], cs[i := v], lists[k := [v] + lists[k]], lo, hi,
               dirty - {v.start})
            && Kept(m, Prepend(m, v.start, b[k]), cs, {v.start})
  {
    var k := v.Bucket();
    InvGeometry(m, b, cs, lists, lo, hi, dirty);
    ListHolds(m, b, cs, lists, lo, hi, dirty, k);
    assert forall u :: u in cs && u != cs[i] ==> Apart(u, cs[i]);
    PrependKeepsLists(m, b, cs, lists, v);
    PrependKeepsRest(m, cs, lists[k], i, v);
    LinkedInv(m, b, cs, lists, lo, hi, dirty, i, v, Prepend(m, v.start, b[k]), b[k := v.start]);
  }

  // ----- tags, payload and recutting -----

  ghost function SetTags(m: seq<Word>, c: nat, words: nat, tag: Word): seq<Word>
    requires c + words + 1 < |m|
  {
    m[c := tag][c + words + 1 := tag]
  }

  lemma WithinList(m: seq<Word>, m': seq<Word>, cs: seq<Chunk>, l: seq<Chunk>, v: Chunk)
    requires |m'| == |m| && ListOk(m, l)
    requires forall p :: 0 <= p < |m| && !(v.start <= p < v.End()) ==> m'[p] == m[p]
    requires forall u :: u in l ==> Apart(u, v) && u.words >= 3
    ensures ListOk(m', l)
  {
    ListFrame(m, m', l);
  }

  /** Writing anywhere inside a used chunk leaves all other chunks and all lists as they are. */
  lemma WithinStep(m: seq<Word>, m': seq<Word>, b: seq<nat>, cs: seq<Chunk>, lists: seq<seq<Chunk>>, lo: nat, hi: nat,
                   dirty: set<nat>, i: nat)
    requires Inv(m, b, cs, lists, lo, hi, dirty) && |m'| == |m|
    requires i < |cs| && cs[i].used
    requires forall p :: 0 <= p < |m| && !(cs[i].start <= p < cs[i].End()) ==> m'[p] == m[p]
    ensures Inv(m', b, cs, lists, lo, hi, dirty + {cs[i].start})
    ensures Kept(m, m', cs, {cs[i].start})
  {
    hide LinkOk;
    InvGeometry(m, b, cs, lists, lo, hi, dirty);
    var v := cs[i];
    assert forall u :: u in cs && u != v ==> Apart(u, v);
    forall k | 0 <= k < |b|
      ensures ListOk(m', lists[k])
    {
      WithinList(m, m', cs, lists[k], v);
    }
    assert forall u :: u in cs && u != v && TagOk(m, u) ==> TagOk(m', u);
  }

  /** A chunk that carries its tags need not be counted as dirty. */
  lemma CleanStep(m: seq<Word>, b: seq<nat>, cs: seq<Chunk>, lists: seq<seq<Chunk>>, lo: nat, hi: nat, dirty: set<nat>,
                  i: nat)
    requires Inv(m, b, cs, lists, lo, hi, dirty)
    requires i < |cs| && TagOk(m, cs[i])
    ensures Inv(m, b, cs, lists, lo, hi, dirty - {cs[i].start})
  {
    hide Filed, ListsOk, TagOk;
    InvGeometry(m, b, cs, lists, lo, hi, dirty);
    assert forall u :: u in cs && u != cs[i] ==> Apart(u, cs[i]);
  }

  /** Filing is about the free chunks only. */
  lemma RecutFiled(cs: seq<Chunk>, ds: seq<Chunk>, lists: seq<seq<Chunk>>)
    requires Filed(cs, lists)
    requires forall u: Chunk :: !u.used ==> (u in cs <==> u in ds)
    ensures Filed(ds, lists)
  {
  }

  lemma RecutTags(m: seq<Word>, cs: seq<Chunk>, ds: seq<Chunk>, pre: seq<Chunk>, ys: seq<Chunk>, post: seq<Chunk>,
                  dirty: set<nat>, dirty': set<nat>, x: nat, y: nat)
    requires forall u :: u in ds <==> u in pre || u in ys || u in post
    requires forall u :: u in pre || u in post ==> u in cs
    requires forall u :: u in pre ==> u.End() <= x
    requires forall u :: u in post ==> y <= u.start
    requires forall u :: u in cs && u.start !in dirty ==> TagOk(m, u)
    requires forall u :: u in cs && u.start in dirty ==> u.used
    requires forall u :: u in ys ==> u.used && u.start in dirty'
    requires forall d :: d in dirty + dirty' && !(x <= d < y) ==> d in dirty && d in dirty'
    ensures forall u :: u in ds && u.start !in dirty' ==> TagOk(m, u)
    ensures forall u :: u in ds && u.start in dirty' ==> u.used
  {
  }

  lemma {:induction false} LastEnd(cs: seq<Chunk>, x: nat, y: nat)
    requires Tiles(cs, x, y) && cs != []
    ensures cs[0].start == x && cs[|cs| - 1].End() == y
  {
    if |cs| > 1 {
      LastEnd(cs[1..], cs[0].End(), y);
    }
  }

  lemma TilesSplice(pre: seq<Chunk>, xs: seq<Chunk>, ys: seq<Chunk>, post: seq<Chunk>, lo: nat, hi: nat, x: nat, y: nat)
    requires Tiles(pre + xs + post, lo, hi) && Tiles(xs, x, y) && Tiles(ys, x, y) && xs != []
    ensures Tiles(pre + ys + post, lo, hi)
    ensures forall u :: u in pre ==> u.End() <= x
    ensures forall u :: u in post ==> y <= u.start
  {
    assert pre + xs + post == pre + (xs + post) && pre + ys + post == pre + (ys + post);
    var x' := TilesSplit(pre, xs + post, lo, hi);
    assert (xs + post)[0] == xs[0];
    var y' := TilesSplit(xs, post, x', hi);
    LastEnd(xs, x, y);
    TilesAppend(ys, post, x, y, hi);
    TilesAppend(pre, ys + post, lo, x, hi);
    TilesBounds(pre, lo, x);
    TilesBounds(post, y, hi);
  }

  /** Used words may be cut into chunks in another way, as long as the new chunks count as dirty. */
  lemma RecutStep(m: seq<Word>, b: seq<nat>, pre: seq<Chunk>, xs: seq<Chunk>, ys: seq<Chunk>, post: seq<Chunk>,
                  lists: seq<seq<Chunk>>, lo: nat, hi: nat, dirty: set<nat>, dirty': set<nat>, x: nat, y: nat)
    requires Inv(m, b, pre + xs + post, lists, lo, hi, dirty)
    requires Tiles(xs, x, y) && Tiles(ys, x, y) && xs != [] && ys != []
    requires (forall u :: u in xs ==> u.used) && (forall u :: u in ys ==> u.used && u.start in dirty')
    requires forall d :: d in dirty + dirty' && !(x <= d < y) ==> d in dirty && d in dirty'
    ensures Inv(m, b, pre + ys + post, lists, lo, hi, dirty')
  {
    var cs, ds := pre + xs + post, pre + ys + post;
    TilesSplice(pre, xs, ys, post, lo, hi, x, y);
    assert forall u :: u in ds <==> u in pre || u in ys || u in post;
    assert forall u :: u in cs <==> u in pre || u in xs || u in post;
    RecutTags(m, cs, ds, pre, ys, post, dirty, dirty', x, y);
    RecutFiled(cs, ds, lists);
  }
}
