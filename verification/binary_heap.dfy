/** The binary heap of nt_binaryheap.c. */
module BinaryHeap {
  import opened Hashing
  import Hashmap
  import opened HeapIndex

  const FAIL: int := Hashmap.FAIL

  /** How a direct operation ends: as meant, by the source's exit, or by a write through a NULL array. */
  datatype Outcome = Done | Exits | Faults

  datatype Elem<D> = Elem(key: nat, data: D)

  type Compare<!D> = (Elem<D>, Elem<D>) -> int

  // ----- order -----

  /** A comparison is a total preorder when "not greater" is total and transitive. */
  ghost predicate TotalPreorder<D(!new)>(cmp: Compare<D>) {
    && (forall a, b :: cmp(a, b) <= 0 || cmp(b, a) <= 0)
    && (forall a, b, c :: cmp(a, b) <= 0 && cmp(b, c) <= 0 ==> cmp(a, c) <= 0)
  }

  lemma Through<D(!new)>(cmp: Compare<D>, a: Elem<D>, b: Elem<D>, c: Elem<D>)
    requires TotalPreorder(cmp) && cmp(a, b) <= 0 && cmp(b, c) <= 0
    ensures cmp(a, c) <= 0
  {
  }

  lemma Either<D(!new)>(cmp: Compare<D>, a: Elem<D>, b: Elem<D>)
    requires TotalPreorder(cmp)
    ensures cmp(a, b) <= 0 || cmp(b, a) <= 0
  {
  }

  function Parent(j: nat): (p: nat)
    ensures j > 0 ==> p < j
  {
    if j == 0 then 0 else (j - 1) / 2
  }

  /** The element at `j`, if there is one with a parent, is not smaller than that. */
  ghost predicate Fits<D>(s: seq<Elem<D>>, cmp: Compare<D>, j: nat) {
    0 < j < |s| ==> cmp(s[Parent(j)], s[j]) <= 0
  }

  ghost predicate Ordered<D>(s: seq<Elem<D>>, cmp: Compare<D>) {
    forall j: nat :: Fits(s, cmp, j)
  }

  /** No child of `i` is smaller than the parent of `i`. */
  ghost predicate Bridged<D>(s: seq<Elem<D>>, cmp: Compare<D>, i: nat)
    requires i < |s|
  {
    forall j :: 0 < j < |s| && Parent(j) == i && i > 0 ==> cmp(s[Parent(i)], s[j]) <= 0
  }

  /** Ordered, but for the element at `i` against its parent and its children. */
  ghost predicate OrderedBut<D>(s: seq<Elem<D>>, cmp: Compare<D>, i: nat) {
    && i < |s| && Bridged(s, cmp, i)
    && forall j: nat :: j != i && Parent(j) != i ==> Fits(s, cmp, j)
  }

  /** Ordered, but for the element at `i` against its parent. */
  ghost predicate OrderedAbove<D>(s: seq<Elem<D>>, cmp: Compare<D>, i: nat) {
    && i < |s| && Bridged(s, cmp, i)
    && forall j: nat :: j != i ==> Fits(s, cmp, j)
  }

  /** Ordered, but for the element at `i` against its children. */
  ghost predicate OrderedBelow<D>(s: seq<Elem<D>>, cmp: Compare<D>, i: nat) {
    && i < |s| && Bridged(s, cmp, i)
    && forall j: nat :: Parent(j) != i ==> Fits(s, cmp, j)
  }

  function Swapped<D>(s: seq<Elem<D>>, i: nat, j: nat): (r: seq<Elem<D>>)
    ensures |r| == |s|
  {
    if i < |s| && j < |s| then s[i := s[j]][j := s[i]] else s
  }

  /** The same elements, each as often. */
  ghost predicate Alike<T>(s: seq<T>, t: seq<T>) {
    |s| == |t| && multiset(s) == multiset(t)
  }

  /** `t` has the elements of `s`, and `x` once more. */
  ghost predicate Gains<T>(s: seq<T>, x: T, t: seq<T>) {
    multiset(t) == multiset(s) + multiset{x}
  }

  ghost predicate HasKey<D>(s: seq<Elem<D>>, k: nat) {
    exists i :: 0 <= i < |s| && s[i].key == k
  }

  lemma SwappedAlike<D>(s: seq<Elem<D>>, i: nat, j: nat, t: seq<Elem<D>>)
    requires i < |s| && j < |s| && Alike(s, t)
    ensures Alike(Swapped(s, i, j), t)
  {
  }

  lemma AlikeThrough<T>(s: seq<T>, t: seq<T>, u: seq<T>)
    requires Alike(s, t) && Alike(t, u)
    ensures Alike(s, u)
  {
  }

  lemma GainsAlike<T>(s: seq<T>, x: T, t: seq<T>, u: seq<T>)
    ensures Gains(s, x, t) && Alike(u, t) ==> Gains(s, x, u)
    ensures Gains(s, x, t) && Alike(u, s) ==> Gains(u, x, t)
    ensures Alike(s, s)
  {
  }

  lemma AppendedGains<T>(s: seq<T>, x: T)
    ensures Gains(s, x, s + [x])
  {
  }

  /** One step up: the disorder moves to the parent, and is above it only. */
  lemma StepUp<D(!new)>(s: seq<Elem<D>>, cmp: Compare<D>, i: nat)
    requires TotalPreorder(cmp) && 0 < i < |s| && (OrderedBut(s, cmp, i) || OrderedAbove(s, cmp, i))
    requires cmp(s[Parent(i)], s[i]) > 0
    ensures OrderedAbove(Swapped(s, Parent(i), i), cmp, Parent(i))
  {
    hide TotalPreorder;
    var p := Parent(i);
    var t := Swapped(s, p, i);
    Either(cmp, s[p], s[i]);
    forall j: nat | 0 < j < |t| && j != p
      ensures cmp(t[Parent(j)], t[j]) <= 0
    {
      if j != i && Parent(j) != i {
        assert Fits(s, cmp, j);
        if Parent(j) == p {
          Through(cmp, s[i], s[p], s[j]);
        }
      }
    }
    assert forall j: nat :: j != p ==> Fits(t, cmp, j);
    forall j | 0 < j < |t| && Parent(j) == p && p > 0
      ensures cmp(t[Parent(p)], t[j]) <= 0
    {
      assert Fits(s, cmp, p);
      if j != i {
        assert Fits(s, cmp, j);
        Through(cmp, s[Parent(p)], s[p], s[j]);
      }
    }
  }

  ghost predicate SmallestChild<D>(s: seq<Elem<D>>, cmp: Compare<D>, c: nat)
    requires 0 < c < |s|
  {
    forall j :: 0 < j < |s| && Parent(j) == Parent(c) ==> cmp(s[c], s[j]) <= 0
  }

  /** One step down, with the smaller child: the disorder moves to where that was. */
  lemma StepDown<D(!new)>(s: seq<Elem<D>>, cmp: Compare<D>, i: nat, c: nat)
    requires TotalPreorder(cmp) && OrderedBelow(s, cmp, i) && 0 < c < |s| && Parent(c) == i
    requires SmallestChild(s, cmp, c) && cmp(s[i], s[c]) > 0
    ensures OrderedBelow(Swapped(s, i, c), cmp, c)
  {
    hide TotalPreorder;
    var t := Swapped(s, i, c);
    Either(cmp, s[i], s[c]);
    forall j: nat | 0 < j < |t| && Parent(j) != c
      ensures cmp(t[Parent(j)], t[j]) <= 0
    {
      assert Parent(j) != i ==> Fits(s, cmp, j);
    }
    assert forall j: nat :: Parent(j) != c ==> Fits(t, cmp, j);
    forall j | 0 < j < |t| && Parent(j) == c
      ensures cmp(t[Parent(c)], t[j]) <= 0
    {
      assert Fits(s, cmp, j);
    }
  }

  /** Which child is the smaller, by one comparison when there are two. */
  lemma SmallerChild<D(!new)>(s: seq<Elem<D>>, cmp: Compare<D>, i: nat)
    requires TotalPreorder(cmp) && 2 * i + 1 < |s|
    ensures 2 * i + 2 >= |s| || cmp(s[2 * i + 1], s[2 * i + 2]) <= 0 ==> SmallestChild(s, cmp, 2 * i + 1)
    ensures 2 * i + 2 < |s| && cmp(s[2 * i + 1], s[2 * i + 2]) > 0 ==> SmallestChild(s, cmp, 2 * i + 2)
  {
  }

  /** Where the walk down ends. */
  lemma Grounded<D(!new)>(s: seq<Elem<D>>, cmp: Compare<D>, i: nat, c: nat)
    requires TotalPreorder(cmp) && OrderedBelow(s, cmp, i)
    requires 2 * i + 1 >= |s| || (0 < c < |s| && Parent(c) == i && SmallestChild(s, cmp, c) && cmp(s[i], s[c]) <= 0)
    ensures Ordered(s, cmp)
  {
  }

  /** Where the walk up ends. */
  lemma Arrived<D(!new)>(s: seq<Elem<D>>, cmp: Compare<D>, i: nat)
    requires TotalPreorder(cmp) && i < |s|
    requires i == 0 || cmp(s[Parent(i)], s[i]) <= 0
    ensures OrderedBut(s, cmp, i) ==> OrderedBelow(s, cmp, i)
    ensures OrderedAbove(s, cmp, i) ==> Ordered(s, cmp)
  {
  }

  lemma {:induction false} RootIsLeast<D(!new)>(s: seq<Elem<D>>, cmp: Compare<D>, i: nat)
    requires TotalPreorder(cmp) && Ordered(s, cmp) && i < |s|
    ensures cmp(s[0], s[i]) <= 0
  {
    hide TotalPreorder;
    if i > 0 {
      RootIsLeast(s, cmp, Parent(i));
      assert Fits(s, cmp, i);
      Through(cmp, s[0], s[Parent(i)], s[i]);
    } else {
      Either(cmp, s[0], s[0]);
    }
  }

  /** Replacing one element of a heap leaves it ordered but for that one. */
  lemma Replaced<D(!new)>(s: seq<Elem<D>>, cmp: Compare<D>, i: nat, x: Elem<D>)
    requires TotalPreorder(cmp) && Ordered(s, cmp) && i < |s|
    ensures OrderedBut(s[i := x], cmp, i)
  {
    hide TotalPreorder;
    var t := s[i := x];
    forall j | 0 < j < |s| && Parent(j) == i && i > 0
      ensures cmp(s[Parent(i)], s[j]) <= 0
    {
      assert Fits(s, cmp, i) && Fits(s, cmp, j);
      Through(cmp, s[Parent(i)], s[i], s[j]);
    }
    forall j: nat | j != i && Parent(j) != i
      ensures Fits(t, cmp, j)
    {
      assert Fits(s, cmp, j);
    }
  }

  // ----- where the elements go -----

  /** The elements once the i-th has been swapped with its parents for as long as they are greater. */
  ghost function Risen<D>(s: seq<Elem<D>>, cmp: Compare<D>, i: nat): seq<Elem<D>>
    requires i < |s|
    decreases i
  {
    if i == 0 || cmp(s[Parent(i)], s[i]) <= 0 then s else Risen(Swapped(s, Parent(i), i), cmp, Parent(i))
  }

  /** The child the i-th element is compared with, the left one of equal ones; itself if it has none. */
  ghost function LesserChild<D>(s: seq<Elem<D>>, cmp: Compare<D>, i: nat): (c: nat)
    requires i < |s|
    ensures c == i || i < c < |s|
  {
    var left, right := 2 * i + 1, 2 * i + 2;
    if left >= |s| then i else if right >= |s| || cmp(s[left], s[right]) <= 0 then left else right
  }

  /** The elements once the i-th has been swapped with its lesser child for as long as that is less. */
  ghost function Sunk<D>(s: seq<Elem<D>>, cmp: Compare<D>, i: nat): seq<Elem<D>>
    requires i < |s|
    decreases |s| - i
  {
    var c := LesserChild(s, cmp, i);
    if c == i || cmp(s[i], s[c]) <= 0 then s else Sunk(Swapped(s, i, c), cmp, c)
  }

  ghost predicate Rises<D>(s: seq<Elem<D>>, cmp: Compare<D>, i: nat)
    requires i < |s|
  {
    i > 0 && cmp(s[Parent(i)], s[i]) > 0
  }

  /** The elements once the i-th has gone up, or, if it does not, down. */
  ghost function Placed<D>(s: seq<Elem<D>>, cmp: Compare<D>, i: nat): seq<Elem<D>>
    requires i < |s|
  {
    if Rises(s, cmp, i) then Risen(s, cmp, i) else Sunk(s, cmp, i)
  }

  // ----- the key index -----

  /** The index gives the position of each key in the heap, and holds no other key. */
  ghost predicate Indexed<D>(s: seq<Elem<D>>, idx: map<nat, nat>) {
    && (forall i :: 0 <= i < |s| ==> s[i].key in idx && idx[s[i].key] == i)
    && (forall k :: k in idx ==> 0 <= idx[k] < |s| && s[idx[k]].key == k)
  }

  /** As above, but for the key of the element at `i`, which no other element has. */
  ghost predicate IndexedBut<D>(s: seq<Elem<D>>, idx: map<nat, nat>, i: nat)
    requires i < |s|
  {
    && (forall j :: 0 <= j < |s| && j != i ==> s[j].key in idx && idx[s[j].key] == j && s[j].key != s[i].key)
    && (forall k :: k in idx && k != s[i].key ==> 0 <= idx[k] < |s| && s[idx[k]].key == k)
  }

  lemma IndexedSwap<D>(s: seq<Elem<D>>, idx: map<nat, nat>, i: nat, j: nat)
    requires i < |s| && j < |s| && i != j && (IndexedBut(s, idx, i) || IndexedBut(s, idx, j))
    ensures Indexed(Swapped(s, i, j), idx[s[j].key := i][s[i].key := j])
  {
  }

  lemma IndexedIsBut<D>(s: seq<Elem<D>>, idx: map<nat, nat>, i: nat)
    requires Indexed(s, idx) && i < |s|
    ensures IndexedBut(s, idx, i)
  {
  }

  lemma IndexedButSet<D>(s: seq<Elem<D>>, idx: map<nat, nat>, i: nat)
    requires i < |s| && IndexedBut(s, idx, i)
    ensures Indexed(s, idx[s[i].key := i])
  {
  }

  /** With the lookup compiled in, the duplicate test of a direct insert finds every key a duplicate:
      the two lookups lead to the same decision exactly for the keys present. */
  lemma BuiltLookupRefusesInserts<D>(s: seq<Elem<D>>, idx: map<nat, nat>, k: nat)
    requires Indexed(s, idx)
    ensures LookupBuilt(idx, k) != FAIL
    ensures Lookup(idx, k) == FAIL <==> k !in idx
    ensures Lookup(idx, k) != FAIL <==> HasKey(s, k)
    ensures (LookupBuilt(idx, k) != FAIL <==> Lookup(idx, k) != FAIL) <==> HasKey(s, k)
  {
  }

  // ----- whole-operation facts -----

  /** A new last element may only be out of order with its parent. */
  lemma Appended<D(!new)>(s: seq<Elem<D>>, cmp: Compare<D>, idx: map<nat, nat>, x: Elem<D>)
    requires TotalPreorder(cmp) && Ordered(s, cmp)
    ensures OrderedBut(s + [x], cmp, |s|)
    ensures Indexed(s, idx) && x.key !in idx ==> IndexedBut(s + [x], idx, |s|)
  {
    hide TotalPreorder;
    var t := s + [x];
    forall j: nat | j != |s|
      ensures Fits(t, cmp, j)
    {
      assert Fits(s, cmp, j);
    }
  }

  lemma LastIsGrounded<D(!new)>(s: seq<Elem<D>>, cmp: Compare<D>)
    requires TotalPreorder(cmp) && |s| > 0 && OrderedBelow(s, cmp, |s| - 1)
    ensures Ordered(s, cmp)
  {
  }

  lemma LookedUp<D>(s: seq<Elem<D>>, idx: map<nat, nat>, k: nat)
    requires Indexed(s, idx) && Lookup(idx, k) != FAIL
    ensures k in idx && 0 <= Lookup(idx, k) < |s| && s[Lookup(idx, k)].key == k
  {
  }

  /** An empty heap has no keys. */
  lemma NoKeys<D>(s: seq<Elem<D>>, idx: map<nat, nat>, k: nat)
    requires s == [] && Indexed(s, idx)
    ensures !HasKey(s, k) && Lookup(idx, k) == FAIL
  {
  }

  lemma IndexedUpdate<D>(s: seq<Elem<D>>, idx: map<nat, nat>, i: nat, x: Elem<D>)
    requires Indexed(s, idx) && i < |s| && s[i].key == x.key
    ensures Indexed(s[i := x], idx)
  {
  }

  /** An element overwritten by the last one, which is then dropped. */
  ghost function WithLast<D>(s: seq<Elem<D>>, i: nat): (r: seq<Elem<D>>)
    requires i < |s|
    ensures |r| == |s| - 1
  {
    if i == |s| - 1 then s[..|s| - 1] else s[..|s| - 1][i := s[|s| - 1]]
  }

  /** The elements once the last has taken the place of the i-th and has found its own. */
  ghost function AfterLoss<D>(s: seq<Elem<D>>, cmp: Compare<D>, i: nat): seq<Elem<D>>
    requires i < |s|
  {
    if i == |s| - 1 then WithLast(s, i) else Placed(WithLast(s, i), cmp, i)
  }

  lemma LastReplacesSame<D>(s: seq<Elem<D>>, i: nat)
    requires i < |s|
    ensures Gains(WithLast(s, i), s[i], s)
  {
    var t, x := s[..|s| - 1], s[|s| - 1];
    assert s == t + [x];
    if i < |s| - 1 {
      assert multiset(t[i := x]) == multiset(t) - multiset{t[i]} + multiset{x};
    }
  }

  lemma LastReplacesOrder<D(!new)>(s: seq<Elem<D>>, cmp: Compare<D>, i: nat)
    requires TotalPreorder(cmp) && Ordered(s, cmp) && i < |s|
    ensures i < |s| - 1 ==> OrderedBut(WithLast(s, i), cmp, i)
    ensures i == |s| - 1 ==> Ordered(WithLast(s, i), cmp)
  {
    hide TotalPreorder;
    var t := s[..|s| - 1];
    forall j: nat
      ensures Fits(t, cmp, j)
    {
      assert Fits(s, cmp, j);
    }
    if i < |s| - 1 {
      Replaced(t, cmp, i, s[|s| - 1]);
    }
  }

  lemma LastReplacesIndex<D>(s: seq<Elem<D>>, idx: map<nat, nat>, i: nat)
    requires Indexed(s, idx) && i < |s|
    ensures i < |s| - 1 ==> IndexedBut(WithLast(s, i), idx - {s[i].key}, i)
    ensures i == |s| - 1 ==> Indexed(WithLast(s, i), idx - {s[i].key})
  {
  }

  // ----- draining -----

  ghost predicate Sorted<D>(s: seq<Elem<D>>, cmp: Compare<D>) {
    forall i, j :: 0 <= i < j < |s| ==> cmp(s[i], s[j]) <= 0
  }

  ghost predicate Least<D>(x: Elem<D>, s: seq<Elem<D>>, cmp: Compare<D>) {
    forall i :: 0 <= i < |s| ==> cmp(x, s[i]) <= 0
  }

  ghost predicate NoneAbove<D>(low: seq<Elem<D>>, high: seq<Elem<D>>, cmp: Compare<D>) {
    forall a, b :: a in low && b in high ==> cmp(a, b) <= 0
  }

  lemma DrainStep<D(!new)>(out: seq<Elem<D>>, s: seq<Elem<D>>, t: seq<Elem<D>>, cmp: Compare<D>)
    requires Sorted(out, cmp) && NoneAbove(out, s, cmp)
    requires s != [] && Least(s[0], s, cmp) && Gains(t, s[0], s)
    ensures Sorted(out + [s[0]], cmp) && NoneAbove(out + [s[0]], t, cmp)
    ensures |t| < |s| && Alike(out + [s[0]] + t, out + s)
  {
    forall b | b in t
      ensures b in s
    {
      assert b in multiset(t);
      assert b in multiset(s);
    }
    assert forall i :: 0 <= i < |out| ==> out[i] in out;
    assert |multiset(s)| == |s| && |multiset(t)| == |t|;
  }

  lemma Untouched<D>(s: seq<Elem<D>>, cmp: Compare<D>)
    ensures Sorted([], cmp) && NoneAbove([], s, cmp) && Alike(s, s)
  {
  }

  const INDEX_SIZE: nat := 512

  /** A new, empty key index. */
  method NewIndex(hash: nat -> nat) returns (table: Hashmap.HashMap<nat>)
    ensures fresh(table) && fresh(table.slots) && IsIndex(table) && table.m == map[]
  {
    hide Hashmap.Meaning;
    var same := (a: nat, b: nat) => a == b;
    table := new Hashmap.HashMap(hash, same, INDEX_SIZE);
    MeaningOfNone(map[], table.same);
    MeaningTells(table.m, map[], table.same);
  }

  lemma NothingIsInOrder<D(!new)>(cmp: Compare<D>)
    ensures Ordered([], cmp) && Indexed<D>([], map[])
  {
  }

  class Heap<D(!new, 0)> {
    const compare: Compare<D>
    const direct: bool
    var elems: array?<Elem<D>>
    var elemsNum: nat
    var elemsAlloc: nat
    /** Which lookup is compiled in: whether an absent key reads as FAIL. */
    const lookupFails: bool
    const keyIndex: Hashmap.HashMap?<nat>
    /** What the key index stands for. */
    ghost var idx: map<nat, nat>
    /** The objects of the key index. */
    ghost var repr: set<object>

    ghost predicate Shape()
      reads this`elems, this`elemsNum, this`elemsAlloc, this`repr
    {
      && TotalPreorder(compare)
      && this !in repr && (elems == null || elems !in repr)
      && if elems == null then elemsNum == elemsAlloc == 0 else elemsNum <= elemsAlloc == elems.Length
    }

    /** The heap, as a sequence. */
    ghost function Contents(): (s: seq<Elem<D>>)
      reads this`elems, this`elemsNum, elems
    {
      if elems != null && elemsNum <= elems.Length then elems[..elemsNum] else []
    }

    /** With the direct option, and only then, there is a key index, apart from the elements; it stands for `idx`. */
    ghost predicate Linked()
      reads this`idx, this`repr, repr
    {
      && (direct <==> keyIndex != null)
      && (keyIndex == null ==> repr == {})
      && (keyIndex != null ==>
            keyIndex in repr && repr == {keyIndex, keyIndex.slots} && IsIndex(keyIndex) && keyIndex.m == idx)
    }

    /** With the lookup that never fails, nothing ever gets into a direct heap. */
    ghost predicate Valid()
      reads this, elems, repr
    {
      && Shape() && Linked()
      && Ordered(Contents(), compare)
      && (direct ==> Indexed(Contents(), idx))
      && (direct && !lookupFails ==> elems == null)
    }

    constructor (compare: Compare<D>, direct: bool, hash: nat -> nat, lookupFails: bool)
      requires TotalPreorder(compare)
      ensures Valid() && Contents() == [] && fresh(repr) && elems == null
      ensures this.compare == compare && this.direct == direct && this.lookupFails == lookupFails
    {
      hide Indexed, Ordered, TotalPreorder, IsIndex;
      NothingIsInOrder(compare);
      this.compare, this.direct, this.lookupFails := compare, direct, lookupFails;
      elems, elemsNum, elemsAlloc, idx := null, 0, 0, map[];
      var table: Hashmap.HashMap?<nat> := null;
      if direct {
        table := NewIndex(hash);
      }
      keyIndex := table;
      repr := {};
      new;
      if table != null {
        repr := {table, table.slots};
      }
    }

    // ----- the key index, as an object -----

    method SetIndex(k: nat, i: nat)
      requires Linked() && Shape() && direct
      modifies this`idx, this`repr, repr
      ensures Linked() && fresh(repr - old(repr)) && idx == old(idx)[k := i]
      ensures Shape() && Contents() == old(Contents())
    {
      hide IsIndex, TotalPreorder;
      SetKey(keyIndex, k, i);
      idx, repr := idx[k := i], {keyIndex, keyIndex.slots};
    }

    method RemoveIndex(k: nat)
      requires Linked() && Shape() && direct
      modifies this`idx, this`repr, repr
      ensures Linked() && fresh(repr - old(repr)) && idx == old(idx) - {k}
      ensures Shape() && Contents() == old(Contents())
    {
      hide IsIndex, TotalPreorder;
      RemoveKey(keyIndex, k);
      idx := idx - {k};
    }

    method FindIndex(k: nat) returns (i: int)
      requires Linked() && direct
      ensures i == if lookupFails then Lookup(idx, k) else LookupBuilt(idx, k)
    {
      hide IsIndex;
      i := FindKey(keyIndex, k, lookupFails);
    }

    /** An element is overwritten. */
    method WriteAt(i: nat, elem: Elem<D>)
      requires Linked() && Shape() && i < elemsNum
      modifies elems
      ensures Linked() && Shape() && Contents() == old(Contents())[i := elem]
    {
      hide IsIndex, TotalPreorder;
      elems[i] := elem;
    }

    method Swap(i: nat, j: nat)
      requires Linked() && Shape() && i < elemsNum && j < elemsNum && i != j
      modifies this`idx, this`repr, elems, repr
      ensures Linked() && fresh(repr - old(repr)) && Shape() && Contents() == Swapped(old(Contents()), i, j)
      ensures idx == if direct then old(idx)[old(elems[j].key) := i][old(elems[i].key) := j] else old(idx)
    {
      hide Linked, TotalPreorder;
      var tmp := elems[i];
      elems[i] := elems[j];
      elems[j] := tmp;
      if direct {
        SetIndex(elems[i].key, i);
        SetIndex(elems[j].key, j);
      }
    }

    /** __binary_heap_ensure_free_space: the elements are moved to a new array with room for one more. */
    method EnsureFreeSpace()
      requires Linked() && Shape()
      modifies this`elems, this`elemsNum, this`elemsAlloc
      ensures Linked() && fresh(repr - old(repr)) && Shape() && elems != null && fresh(elems) && elemsNum < elems.Length
      ensures Contents() == old(Contents()) && elemsNum == old(elemsNum)
      ensures elemsAlloc == if old(elems) == null then 32 else if elemsNum < old(elemsAlloc) then old(elemsAlloc)
                            else if old(elemsAlloc) < 2 then old(elemsAlloc) + 1 else old(elemsAlloc) * 3 / 2
    {
      hide Linked, TotalPreorder;
      var alloc := elemsAlloc;
      if elems == null {
        elemsNum := 0;
        alloc := 32;
      } else if elemsNum == elemsAlloc {
        alloc := if elemsAlloc + 1 >= elemsAlloc * 3 / 2 then elemsAlloc + 1 else elemsAlloc * 3 / 2;
      }
      if elemsNum != alloc {
        var bigger := new Elem<D>[alloc];
        var i := 0;
        while i < elemsNum
          invariant i <= elemsNum
          invariant elems == null ==> elemsNum == 0
          invariant elems != null ==> i <= elems.Length && bigger[..i] == elems[..i]
          modifies bigger
        {
          bigger[i] := elems[i];
          i := i + 1;
        }
        elems := bigger;
        elemsAlloc := alloc;
      }
    }

    /** __binary_heap_bubble_up, for an element that may be out of order with its parent and its children:
        when it moves, all is in order; when it does not, it is in order with its parent. */
    method BubbleUp(start: nat) returns (index: nat)
      requires Linked() && Shape() && start < elemsNum && OrderedBut(Contents(), compare, start)
      requires direct ==> IndexedBut(Contents(), idx, start)
      modifies this`idx, this`repr, elems, repr
      ensures Linked() && fresh(repr - old(repr)) && Shape() && Alike(Contents(), old(Contents()))
              && |Contents()| == |old(Contents())| && index < elemsNum
      ensures index == start ==>
                Contents() == old(Contents()) && idx == old(idx) && OrderedBelow(Contents(), compare, start)
      ensures index != start ==> Ordered(Contents(), compare) && (direct ==> Indexed(Contents(), idx))
      ensures Contents() == Risen(old(Contents()), compare, start)
      ensures index != start <==> Rises(old(Contents()), compare, start)
    {
      hide Linked, Alike, Gains, HasKey, TotalPreorder, OrderedBut, OrderedBelow, OrderedAbove, Indexed, IndexedBut,
           Swapped;
      index := start;
      ghost var s0, k0 := Contents(), idx;
      GainsAlike(s0, s0[0], s0, s0);
      while index != 0
        invariant Linked() && fresh(repr - old(repr)) && Shape()
        invariant index <= start && Alike(Contents(), s0) && |Contents()| == |s0|
        invariant index == start ==> Contents() == s0 && idx == k0
        invariant index != start ==> OrderedAbove(Contents(), compare, index) && (direct ==> Indexed(Contents(), idx))
        invariant Risen(Contents(), compare, index) == Risen(s0, compare, start)
        invariant index != start ==> Rises(s0, compare, start)
      {
        ghost var s, ix := Contents(), idx;
        if compare(elems[Parent(index)], elems[index]) <= 0 {
          break;
        }
        StepUp(s, compare, index);
        SwappedAlike(s, Parent(index), index, s0);
        if direct {
          if index != start {
            IndexedIsBut(s, ix, index);
          }
          IndexedSwap(s, ix, Parent(index), index);
        }
        Swap(Parent(index), index);
        index := Parent(index);
      }
      Arrived(Contents(), compare, index);
    }

    /** The swap with the smaller child. */
    method Lower(index: nat, child: nat, ghost s0: seq<Elem<D>>) returns (r: nat)
      requires Alike(Contents(), s0)
      requires Linked() && Shape() && index < child < elemsNum && Parent(child) == index
               && OrderedBelow(Contents(), compare, index)
      requires SmallestChild(Contents(), compare, child) && compare(Contents()[index], Contents()[child]) > 0
      requires direct ==> IndexedBut(Contents(), idx, index)
      modifies this`idx, this`repr, elems, repr
      ensures Linked() && fresh(repr - old(repr)) && Shape() && Alike(Contents(), s0)
              && |Contents()| == |old(Contents())| && r == child
      ensures OrderedBelow(Contents(), compare, child) && Contents() == Swapped(old(Contents()), index, child)
      ensures direct ==> Indexed(Contents(), idx) && IndexedBut(Contents(), idx, child)
    {
      hide Linked, Alike, Gains, HasKey, TotalPreorder, OrderedBelow, Indexed, IndexedBut, Swapped;
      ghost var s, ix := Contents(), idx;
      StepDown(s, compare, index, child);
      SwappedAlike(s, index, child, s0);
      if direct {
        IndexedSwap(s, ix, index, child);
      }
      Swap(index, child);
      if direct {
        IndexedIsBut(Contents(), idx, child);
      }
      r := child;
    }

    /** One round of the walk down: the element is swapped with its smaller child, or has arrived. */
    method LowerOnce(index: nat, ghost s0: seq<Elem<D>>) returns (next: nat, done: bool)
      requires Linked() && Shape() && index < elemsNum && OrderedBelow(Contents(), compare, index)
      requires Alike(Contents(), s0) && (direct ==> IndexedBut(Contents(), idx, index))
      modifies this`idx, this`repr, elems, repr
      ensures Linked() && fresh(repr - old(repr)) && Shape() && Alike(Contents(), s0)
      ensures index <= next < elemsNum && |Contents()| == |old(Contents())|
      ensures next == index ==> done && Contents() == old(Contents()) && idx == old(idx) && repr == old(repr)
      ensures next != index ==> (direct ==> Indexed(Contents(), idx) && IndexedBut(Contents(), idx, next))
      ensures if done then Ordered(Contents(), compare) else OrderedBelow(Contents(), compare, next)
      ensures Sunk(old(Contents()), compare, index) == if done then Contents() else Sunk(Contents(), compare, next)
    {
      hide Linked, Alike, TotalPreorder, OrderedBelow, Indexed, IndexedBut, Ordered, Swapped;
      next, done := index, true;
      var left := 2 * index + 1;
      var right := 2 * index + 2;
      if left >= elemsNum {
        Grounded(Contents(), compare, index, 0);
        return;
      }
      SmallerChild(Contents(), compare, index);
      if right >= elemsNum {
        if compare(elems[index], elems[left]) > 0 {
          next := Lower(index, left, s0);
          Grounded(Contents(), compare, next, 0);
        } else {
          Grounded(Contents(), compare, index, left);
        }
        return;
      }
      if compare(elems[left], elems[right]) <= 0 {
        if compare(elems[index], elems[left]) > 0 {
          next := Lower(index, left, s0);
          done := false;
        } else {
          Grounded(Contents(), compare, index, left);
        }
      } else {
        if compare(elems[index], elems[right]) > 0 {
          next := Lower(index, right, s0);
          done := false;
        } else {
          Grounded(Contents(), compare, index, right);
        }
      }
    }

    /** __binary_heap_bubble_down, for an element that may be out of order with its children. */
    method BubbleDown(start: nat) returns (index: nat)
      requires Linked() && Shape() && start < elemsNum && OrderedBelow(Contents(), compare, start)
      requires direct ==> IndexedBut(Contents(), idx, start)
      modifies this`idx, this`repr, elems, repr
      ensures Linked() && fresh(repr - old(repr)) && Shape() && Alike(Contents(), old(Contents()))
              && |Contents()| == |old(Contents())| && index < elemsNum
      ensures Ordered(Contents(), compare)
      ensures index == start ==> Contents() == old(Contents()) && idx == old(idx)
      ensures index != start ==> (direct ==> Indexed(Contents(), idx))
      ensures Contents() == Sunk(old(Contents()), compare, start)
    {
      hide Linked, Alike, TotalPreorder, OrderedBelow, Indexed, IndexedBut, Ordered, Sunk;
      index := start;
      ghost var s0, k0 := Contents(), idx;
      GainsAlike(s0, s0[0], s0, s0);
      var done := false;
      while !done
        invariant Linked() && fresh(repr - old(repr)) && Shape()
        invariant start <= index < elemsNum && Alike(Contents(), s0) && |Contents()| == |s0|
        invariant if done then Ordered(Contents(), compare) else OrderedBelow(Contents(), compare, index)
        invariant Sunk(s0, compare, start) == if done then Contents() else Sunk(Contents(), compare, index)
        invariant index == start ==> Contents() == s0 && idx == k0
        invariant direct ==> IndexedBut(Contents(), idx, index)
        invariant index != start ==> (direct ==> Indexed(Contents(), idx))
        decreases !done, elemsNum - index
      {
        index, done := LowerOnce(index, s0);
        assert fresh(repr - old(repr));
      }
    }

    /** What the direct operations do with an element that may be out of order either way: up, or else down. */
    method Place(start: nat) returns (moved: bool)
      requires Linked() && Shape() && start < elemsNum && OrderedBut(Contents(), compare, start)
      requires direct ==> IndexedBut(Contents(), idx, start)
      modifies this`idx, this`repr, elems, repr
      ensures Linked() && fresh(repr - old(repr)) && Shape() && Alike(Contents(), old(Contents()))
              && |Contents()| == |old(Contents())|
      ensures Ordered(Contents(), compare) && Contents() == Placed(old(Contents()), compare, start)
      ensures !moved ==> Contents() == old(Contents()) && idx == old(idx)
      ensures moved ==> (direct ==> Indexed(Contents(), idx))
    {
      hide Linked, Alike, TotalPreorder, OrderedBut, OrderedBelow, Ordered, Indexed, IndexedBut, Risen, Sunk, Rises;
      var index := BubbleUp(start);
      assert fresh(repr - old(repr));
      if index == start {
        index := BubbleDown(start);
      }
      moved := index != start;
    }

    /** One element fewer: the last one takes the place of the one at `i`, if that is another. */
    method DropLast(i: nat) returns (moved: bool)
      requires Linked() && Shape() && i < elemsNum
      modifies this`elemsNum, elems
      ensures Linked() && fresh(repr - old(repr)) && Shape() && elemsNum == old(elemsNum) - 1
              && (moved <==> i != elemsNum)
      ensures Contents() == WithLast(old(Contents()), i)
    {
      hide Linked, TotalPreorder;
      ghost var s := Contents();
      elemsNum := elemsNum - 1;
      moved := i != elemsNum;
      if moved {
        elems[i] := elems[elemsNum];
      }
      assert forall j :: 0 <= j < elemsNum ==> Contents()[j] == WithLast(s, i)[j];
    }

    /** One element more, at the end. */
    method Push(elem: Elem<D>)
      requires Linked() && Shape() && elems != null && elemsNum < elems.Length
      modifies this`elemsNum, elems
      ensures Linked() && fresh(repr - old(repr)) && Shape() && elemsNum == old(elemsNum) + 1
              && Contents() == old(Contents()) + [elem]
    {
      hide Linked, TotalPreorder;
      elemsNum := elemsNum + 1;
      elems[elemsNum - 1] := elem;
    }

    // ----- the public operations -----

    /** nt_binary_heap_find_min; nothing for an empty heap, where the source reports and exits. */
    method FindMin() returns (ok: bool, elem: Elem<D>)
      requires Valid()
      ensures ok <==> Contents() != []
      ensures ok ==> elem == Contents()[0] && Least(elem, Contents(), compare)
    {
      if elemsNum == 0 {
        var d: D := *;
        return false, Elem(0, d);
      }
      ghost var s := Contents();
      forall i | 0 <= i < |s|
        ensures compare(s[0], s[i]) <= 0
      {
        RootIsLeast(s, compare, i);
      }
      return true, elems[0];
    }

    /** The position of an element that did not move is written. */
    method IndexAt(index: nat)
      requires Linked() && Shape() && direct && index < elemsNum && IndexedBut(Contents(), idx, index)
      modifies this`idx, this`repr, repr
      ensures Linked() && Shape() && fresh(repr - old(repr))
      ensures Contents() == old(Contents()) && Indexed(Contents(), idx)
    {
      hide Linked, TotalPreorder, Indexed, IndexedBut;
      IndexedButSet(Contents(), idx, index);
      SetIndex(elems[index].key, index);
    }

    /** The insertion of an element whose key is not indexed. */
    method Add(elem: Elem<D>)
      requires Valid() && (direct ==> lookupFails && elem.key !in idx)
      modifies this, elems, repr
      ensures Valid() && fresh(elems) && fresh(repr - old(repr))
      ensures Gains(old(Contents()), elem, Contents())
      ensures Contents() == Risen(old(Contents()) + [elem], compare, |old(Contents())|)
    {
      hide Linked, Alike, Gains, HasKey, TotalPreorder, Ordered, Indexed, OrderedBut, IndexedBut, OrderedBelow,
           OrderedAbove, Lookup, Risen, Rises;
      ghost var s := Contents();
      Appended(s, compare, idx, elem);
      EnsureFreeSpace();
      var index := elemsNum;
      Push(elem);
      AppendedGains(s, elem);
      index := BubbleUp(index);
      assert fresh(repr - old(repr));
      ghost var t := Contents();
      GainsAlike(s, elem, s + [elem], t);
      if index == elemsNum - 1 {
        LastIsGrounded(t, compare);
        if direct {
          IndexAt(index);
          assert fresh(repr - old(repr));
        }
      }
    }

    /** nt_binary_heap_insert.  With the direct option a key that is already there is refused, or, if the lookup
        compiled in never fails, every key is. */
    method Insert(elem: Elem<D>) returns (ok: bool)
      requires Valid()
      modifies this, elems, repr
      ensures Valid() && (elems == old(elems) || fresh(elems)) && fresh(repr - old(repr))
      ensures ok <==> !direct || (lookupFails && !HasKey(old(Contents()), elem.key))
      ensures ok ==> Gains(old(Contents()), elem, Contents())
      ensures ok ==> Contents() == Risen(old(Contents()) + [elem], compare, |old(Contents())|)
      ensures !ok ==> Contents() == old(Contents())
    {
      hide Linked, Gains, HasKey, TotalPreorder, Ordered, Indexed, Lookup, LookupBuilt, Contents, Risen;
      if direct {
        BuiltLookupRefusesInserts(Contents(), idx, elem.key);
        var found := FindIndex(elem.key);
        if found != FAIL {
          return false;
        }
      }
      Add(elem);
      ok := true;
    }

    /** nt_binary_heap_update_direct.  It exits without the direct option, or for a key that is not there; with
        the lookup that never fails it then takes position 0 of an array that was never allocated. */
    method UpdateDirect(elem: Elem<D>) returns (r: Outcome)
      requires Valid()
      modifies this`idx, this`repr, elems, repr
      ensures Valid() && fresh(repr - old(repr))
      ensures r.Done? <==> direct && lookupFails && HasKey(old(Contents()), elem.key)
      ensures r.Exits? <==> !direct || (lookupFails && !HasKey(old(Contents()), elem.key))
      ensures r.Faults? <==> direct && !lookupFails
      ensures r.Done? ==> exists i :: 0 <= i < |old(Contents())| && old(Contents())[i].key == elem.key
                                      && Alike(Contents(), old(Contents())[i := elem])
                                      && Contents() == Placed(old(Contents())[i := elem], compare, i)
      ensures !r.Done? ==> Contents() == old(Contents())
    {
      hide Linked, Alike, Gains, HasKey, TotalPreorder, Ordered, Indexed, OrderedBut, IndexedBut, OrderedBelow,
           OrderedAbove, Lookup, LookupBuilt, Placed;
      ghost var s := Contents();
      if !direct {
        return Exits;
      }
      BuiltLookupRefusesInserts(s, idx, elem.key);
      var index := FindIndex(elem.key);
      if index == FAIL {
        return Exits;
      }
      if elems == null {
        NoKeys(s, idx, elem.key);
        return Faults;
      }
      LookedUp(s, idx, elem.key);
      Replaced(s, compare, index, elem);
      IndexedUpdate(s, idx, index, elem);
      IndexedIsBut(s[index := elem], idx, index);
      WriteAt(index, elem);
      var moved := Place(index);
      r := Done;
    }

    /** nt_binary_heap_remove_min; nothing for an empty heap, where the source reports and exits. */
    method RemoveMin() returns (ok: bool)
      requires Valid()
      modifies this`idx, this`repr, this`elemsNum, elems, repr
      ensures Valid() && fresh(repr - old(repr))
      ensures elems == old(elems) && (ok <==> old(Contents()) != [])
      ensures ok ==> Gains(Contents(), old(Contents())[0], old(Contents()))
      ensures ok ==> Contents() == if |old(Contents())| == 1 then [] else Sunk(WithLast(old(Contents()), 0), compare, 0)
      ensures !ok ==> Contents() == old(Contents())
    {
      hide Linked, Alike, Gains, HasKey, TotalPreorder, Ordered, Indexed, OrderedBut, IndexedBut, OrderedBelow,
           OrderedAbove, Lookup, WithLast, Sunk;
      ghost var s, k0 := Contents(), idx;
      if elemsNum == 0 {
        return false;
      }
      LastReplacesSame(s, 0);
      LastReplacesOrder(s, compare, 0);
      if direct {
        LastReplacesIndex(s, idx, 0);
        RemoveIndex(elems[0].key);
      }
      assert fresh(repr - old(repr));
      var moved := DropLast(0);
      if moved {
        Arrived(Contents(), compare, 0);
        var index := BubbleDown(0);
        assert fresh(repr - old(repr));
        GainsAlike(WithLast(s, 0), s[0], s, Contents());
        if direct && index == 0 {
          IndexAt(index);
        }
      }
      ok := true;
    }

    /** nt_binary_heap_remove_direct; how it ends is as for an update. */
    method RemoveDirect(key: nat) returns (r: Outcome)
      requires Valid()
      modifies this`idx, this`repr, this`elemsNum, elems, repr
      ensures Valid() && fresh(repr - old(repr))
      ensures r.Done? <==> direct && lookupFails && HasKey(old(Contents()), key)
      ensures r.Exits? <==> !direct || (lookupFails && !HasKey(old(Contents()), key))
      ensures r.Faults? <==> direct && !lookupFails
      ensures r.Done? ==> exists i :: 0 <= i < |old(Contents())| && old(Contents())[i].key == key
                                      && Gains(Contents(), old(Contents())[i], old(Contents()))
                                      && Contents() == AfterLoss(old(Contents()), compare, i)
      ensures !r.Done? ==> Contents() == old(Contents())
    {
      hide Linked, Alike, Gains, HasKey, TotalPreorder, Ordered, Indexed, OrderedBut, IndexedBut, OrderedBelow,
           OrderedAbove, Lookup, LookupBuilt, WithLast, Placed;
      ghost var s := Contents();
      if !direct {
        return Exits;
      }
      BuiltLookupRefusesInserts(s, idx, key);
      var index := FindIndex(key);
      if index == FAIL {
        return Exits;
      }
      if elems == null {
        NoKeys(s, idx, key);
        return Faults;
      }
      LookedUp(s, idx, key);
      LastReplacesSame(s, index);
      LastReplacesOrder(s, compare, index);
      LastReplacesIndex(s, idx, index);
      RemoveIndex(key);
      assert fresh(repr - old(repr));
      var moved := DropLast(index);
      ghost var t := Contents();
      if moved {
        moved := Place(index);
        assert fresh(repr - old(repr));
        GainsAlike(t, s[index], s, Contents());
        if !moved {
          IndexAt(index);
        }
      }
      r := Done;
    }

    /** nt_binary_heap_clear. */
    method Clear()
      requires Valid()
      modifies this, repr
      ensures Valid() && fresh(repr - old(repr)) && Contents() == [] && elems == null
    {
      hide IsIndex, TotalPreorder;
      if elems != null {
        elems := null;
        elemsNum := 0;
        elemsAlloc := 0;
      }
      if direct {
        ClearKeys(keyIndex);
        idx := map[];
      }
    }
  }

  /** Taking the minimum until none is left gives the elements in order. */
  method Drain<D(!new, 0)>(heap: Heap<D>) returns (out: seq<Elem<D>>)
    requires heap.Valid()
    modifies heap`idx, heap`repr, heap`elemsNum, heap.elems, heap.repr
    ensures heap.Valid() && heap.Contents() == []
    ensures Sorted(out, heap.compare) && Alike(out, old(heap.Contents()))
  {
    hide Gains, Alike, Sorted, NoneAbove, Least, Heap.Contents, Heap.Valid;
    out := [];
    ghost var all := heap.Contents();
    Untouched(all, heap.compare);
    assert out + all == all;
    while true
      invariant heap.Valid() && Alike(out + heap.Contents(), all)
      invariant Sorted(out, heap.compare) && NoneAbove(out, heap.Contents(), heap.compare)
      invariant heap.elems == old(heap.elems) && fresh(heap.repr - old(heap.repr))
      decreases |heap.Contents()|
    {
      ghost var s := heap.Contents();
      var ok, elem := heap.FindMin();
      if !ok {
        assert out + s == out;
        return;
      }
      var removed := heap.RemoveMin();
      DrainStep(out, s, heap.Contents(), heap.compare);
      AlikeThrough(out + [elem] + heap.Contents(), out + s, all);
      out := out + [elem];
    }
  }
}
