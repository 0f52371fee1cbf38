/** The hash map of nt_hashmap.c: an array of slots, each a growing array of entries. */
module Hashmap {
  import opened Hashing
  import Numeric

  const HASHMAP_DEFAULT_SLOTS: nat := 10
  const FAIL: int := -1

  datatype KV<K> = KV(key: K, value: nat)

  /** The entries in use and the room allocated for them; no room means no array has been allocated. */
  datatype Slot<K> = Slot(entries: seq<KV<K>>, alloc: nat)

  // ----- the mathematical map -----

  ghost predicate HasKey<K(!new)>(m: map<K, nat>, same: (K, K) -> bool, k: K) {
    exists r :: r in m && same(r, k)
  }

  /** What a key reads as; an absent one reads as zero. */
  ghost function Value<K(!new)>(m: map<K, nat>, same: (K, K) -> bool, k: K): nat {
    if HasKey(m, same, k) then
      var r :| r in m && same(r, k);
      m[r]
    else 0
  }

  /** The map the stored entries stand for: a key reads as the entry whose key is equal to it. */
  ghost function Meaning<K(!new)>(m: map<K, nat>, same: (K, K) -> bool): imap<K, nat> {
    imap k | HasKey(m, same, k) :: Value(m, same, k)
  }

  ghost function Override<K(!new)>(c: imap<K, nat>, same: (K, K) -> bool, k: K, v: nat): imap<K, nat> {
    imap x | x in c || same(k, x) :: if same(k, x) then v else c[x]
  }

  ghost function Without<K(!new)>(c: imap<K, nat>, same: (K, K) -> bool, k: K): imap<K, nat> {
    imap x | x in c && !same(k, x) :: c[x]
  }

  /** No two stored keys are equal. */
  ghost predicate Apart<K(!new)>(keys: set<K>, same: (K, K) -> bool) {
    forall a, b :: a in keys && b in keys && same(a, b) ==> a == b
  }

  lemma ValueOf<K(!new)>(m: map<K, nat>, hash: K -> nat, same: (K, K) -> bool, r: K, k: K)
    requires Lawful(hash, same) && Apart(m.Keys, same) && r in m && same(r, k)
    ensures HasKey(m, same, k) && Value(m, same, k) == m[r]
  {
  }

  lemma MeaningSet<K(!new)>(m: map<K, nat>, hash: K -> nat, same: (K, K) -> bool, r: K, k: K, v: nat)
    requires Lawful(hash, same) && Apart(m.Keys, same) && same(r, k)
    requires r in m || (r == k && !HasKey(m, same, k))
    ensures Apart(m[r := v].Keys, same)
    ensures Meaning(m[r := v], same) == Override(Meaning(m, same), same, k, v)
  {
    var n := m[r := v];
    EqualAlike(r, k, hash, same);
    forall a, b | a in n && b in n && same(a, b)
      ensures a == b
    {
      assert same(b, a);
    }
    forall x
      ensures HasKey(n, same, x) <==> HasKey(m, same, x) || same(k, x)
      ensures HasKey(n, same, x) ==> Value(n, same, x) == if same(k, x) then v else Value(m, same, x)
    {
      if same(k, x) {
        ValueOf(n, hash, same, r, x);
      } else if HasKey(m, same, x) {
        var q :| q in m && same(q, x);
        ValueOf(m, hash, same, q, x);
        ValueOf(n, hash, same, q, x);
      }
    }
  }

  lemma MeaningRemoved<K(!new)>(m: map<K, nat>, hash: K -> nat, same: (K, K) -> bool, r: K, k: K)
    requires Lawful(hash, same) && Apart(m.Keys, same) && r in m && same(r, k)
    ensures Apart((m - {r}).Keys, same)
    ensures Meaning(m - {r}, same) == Without(Meaning(m, same), same, k)
  {
    var n := m - {r};
    EqualAlike(r, k, hash, same);
    forall x
      ensures HasKey(n, same, x) <==> HasKey(m, same, x) && !same(k, x)
      ensures HasKey(n, same, x) ==> Value(n, same, x) == Value(m, same, x)
    {
      if HasKey(m, same, x) {
        var q :| q in m && same(q, x);
        ValueOf(m, hash, same, q, x);
        if q != r {
          ValueOf(n, hash, same, q, x);
          assert same(k, x) ==> same(x, k);
          assert same(k, x) ==> same(q, r);
        } else {
          assert forall p :: p in n && same(p, x) ==> same(x, r) && same(p, r);
        }
      }
    }
  }

  lemma MeaningAbsent<K(!new)>(m: map<K, nat>, same: (K, K) -> bool, k: K)
    requires !HasKey(m, same, k) && (forall x, y, z :: same(x, y) && same(y, z) ==> same(x, z))
             && forall x, y :: same(x, y) ==> same(y, x)
    ensures Meaning(m, same) == Without(Meaning(m, same), same, k)
  {
    forall x | HasKey(m, same, x)
      ensures !same(k, x)
    {
      var r :| r in m && same(r, x);
      assert same(k, x) ==> same(x, k);
    }
  }

  // ----- the slots, as values -----

  ghost predicate Distinct<K>(es: seq<KV<K>>) {
    forall i, j :: 0 <= i < j < |es| ==> es[i].key != es[j].key
  }

  /** The slots hold exactly the entries of `m`, each once, in the slot `loc` says. */
  ghost predicate Stored<K>(ss: seq<Slot<K>>, m: map<K, nat>, loc: map<K, nat>) {
    && m.Keys == loc.Keys
    && (forall s :: 0 <= s < |ss| ==> Distinct(ss[s].entries))
    && (forall s, e :: 0 <= s < |ss| && e in ss[s].entries ==> e.key in m && m[e.key] == e.value && loc[e.key] == s)
    && (forall k :: k in m ==> loc[k] < |ss| && KV(k, m[k]) in ss[loc[k]].entries)
  }

  /** Entries in use fit the room allocated. */
  ghost predicate Roomy<K>(ss: seq<Slot<K>>) {
    forall s :: 0 <= s < |ss| ==> |ss[s].entries| <= ss[s].alloc && (ss[s].alloc == 0 || ss[s].alloc >= 6)
  }

  /** An entry overwritten by the last one, which is then dropped. */
  function SwapOut<K>(es: seq<KV<K>>, i: nat): (r: seq<KV<K>>)
    requires i < |es|
    ensures |r| == |es| - 1
  {
    es[i := es[|es| - 1]][..|es| - 1]
  }

  lemma SwapOutMembers<K>(es: seq<KV<K>>, i: nat)
    requires i < |es| && Distinct(es)
    ensures Distinct(SwapOut(es, i))
    ensures forall e :: e in SwapOut(es, i) <==> e in es && e.key != es[i].key
  {
    var r := SwapOut(es, i);
    forall e | e in es && e.key != es[i].key
      ensures e in r
    {
      var j :| 0 <= j < |es| && es[j] == e;
      assert r[if j == |es| - 1 then i else j] == e;
    }
  }

  lemma EntryReplaced<K>(es: seq<KV<K>>, i: nat, v: nat)
    requires i < |es| && Distinct(es)
    ensures var k := es[i].key;
            var fs := es[i := KV(k, v)];
            Distinct(fs) && forall e :: e in fs <==> e == KV(k, v) || (e in es && e.key != k)
  {
    var k := es[i].key;
    var fs := es[i := KV(k, v)];
    assert fs[i] == KV(k, v);
    forall e | e in es && e.key != k
      ensures e in fs
    {
      var j :| 0 <= j < |es| && es[j] == e;
      assert fs[j] == e;
    }
  }

  lemma StoredSet<K>(ss: seq<Slot<K>>, m: map<K, nat>, loc: map<K, nat>, s: nat, i: nat, v: nat)
    requires Stored(ss, m, loc) && s < |ss| && i < |ss[s].entries|
    ensures var k := ss[s].entries[i].key;
            && k in m && loc[k] == s
            && Stored(ss[s := ss[s].(entries := ss[s].entries[i := KV(k, v)])], m[k := v], loc)
  {
    var es := ss[s].entries;
    var k := es[i].key;
    assert es[i] in es;
    var fs := es[i := KV(k, v)];
    var tt, n := ss[s := ss[s].(entries := fs)], m[k := v];
    EntryReplaced(es, i, v);
    forall q | q in n
      ensures loc[q] < |tt| && KV(q, n[q]) in tt[loc[q]].entries
    {
      assert q != k ==> KV(q, m[q]) in ss[loc[q]].entries;
    }
    forall t, e | 0 <= t < |tt| && e in tt[t].entries
      ensures e.key in n && n[e.key] == e.value && loc[e.key] == t
    {
      if t == s {
        assert e == KV(k, v) || (e in es && e.key != k);
      } else {
        assert e in ss[t].entries;
      }
    }
  }

  lemma StoredAppend<K>(ss: seq<Slot<K>>, m: map<K, nat>, loc: map<K, nat>, s: nat, e: KV<K>, alloc: nat)
    requires Stored(ss, m, loc) && s < |ss| && e.key !in m
    ensures Stored(ss[s := Slot(ss[s].entries + [e], alloc)], m[e.key := e.value], loc[e.key := s])
  {
    var es := ss[s].entries;
    assert forall j :: 0 <= j < |es| ==> es[j] in es;
    forall q | q in m
      ensures KV(q, m[q]) in ss[s := Slot(es + [e], alloc)][loc[q]].entries
    {
      assert KV(q, m[q]) in ss[loc[q]].entries;
    }
    assert (es + [e])[|es|] == e;
  }

  lemma StoredRemove<K>(ss: seq<Slot<K>>, m: map<K, nat>, loc: map<K, nat>, s: nat, i: nat)
    requires Stored(ss, m, loc) && s < |ss| && i < |ss[s].entries|
    ensures var e := ss[s].entries[i];
            && e.key in m && m[e.key] == e.value && loc[e.key] == s
            && Stored(ss[s := ss[s].(entries := SwapOut(ss[s].entries, i))], m - {e.key}, loc - {e.key})
  {
    var es := ss[s].entries;
    assert es[i] in es;
    SwapOutMembers(es, i);
  }

  /** The slots after the i-th entry of one went to the end of another. */
  ghost function Swapped<K>(ss: seq<Slot<K>>, s: nat, i: nat, t: nat, alloc: nat): seq<Slot<K>> {
    if s < |ss| && t < |ss| && i < |ss[s].entries| then
      ss[s := ss[s].(entries := SwapOut(ss[s].entries, i))][t := Slot(ss[t].entries + [ss[s].entries[i]], alloc)]
    else ss
  }

  lemma StoredMove<K>(ss: seq<Slot<K>>, m: map<K, nat>, loc: map<K, nat>, s: nat, i: nat, t: nat, alloc: nat)
    requires Stored(ss, m, loc) && s < |ss| && t < |ss| && s != t && i < |ss[s].entries|
    ensures var e := ss[s].entries[i];
            && e.key in m
            && Stored(Swapped(ss, s, i, t, alloc), m, loc[e.key := t])
  {
    hide Stored, SwapOut;
    var e := ss[s].entries[i];
    StoredRemove(ss, m, loc, s, i);
    var rs := ss[s := ss[s].(entries := SwapOut(ss[s].entries, i))];
    StoredAppend(rs, m - {e.key}, loc - {e.key}, t, e, alloc);
    assert (m - {e.key})[e.key := e.value] == m;
    assert (loc - {e.key})[e.key := t] == loc[e.key := t];
  }

  lemma NothingStored<K>(ss: seq<Slot<K>>, m: map<K, nat>, loc: map<K, nat>)
    requires Stored(ss, m, loc) && m == map[]
    ensures loc == map[]
  {
  }

  lemma NotStored<K(!new)>(m: map<K, nat>, hash: K -> nat, same: (K, K) -> bool, k: K, v: nat)
    requires Lawful(hash, same) && !HasKey(m, same, k)
    ensures k !in m && |m[k := v]| == |m| + 1 && same(k, k)
  {
  }

  lemma OneFewer<K>(m: map<K, nat>, r: K)
    requires r in m
    ensures |m - {r}| == |m| - 1
  {
  }

  lemma StoredExtended<K>(ss: seq<Slot<K>>, bigger: seq<Slot<K>>, m: map<K, nat>, loc: map<K, nat>)
    requires Stored(ss, m, loc) && Roomy(ss) && |ss| <= |bigger|
    requires forall s :: 0 <= s < |bigger| ==> bigger[s] == if s < |ss| then ss[s] else Slot([], 0)
    ensures Stored(bigger, m, loc) && Roomy(bigger)
    ensures forall k :: k in loc ==> loc[k] < |ss|
  {
  }

  lemma RoomyShrunk<K>(ss: seq<Slot<K>>, s: nat, slot: Slot<K>)
    requires Roomy(ss) && s < |ss| && slot.alloc == ss[s].alloc && |slot.entries| <= |ss[s].entries|
    ensures Roomy(ss[s := slot])
  {
  }

  lemma UnallocatedIsEmpty<K>(ss: seq<Slot<K>>, s: nat)
    requires Roomy(ss) && s < |ss| && ss[s].alloc == 0
    ensures ss[s] == Slot([], 0)
  {
  }

  lemma EmptyStored<K>(ss: seq<Slot<K>>, m: map<K, nat>, loc: map<K, nat>)
    requires m == map[] && loc == map[] && forall s :: 0 <= s < |ss| ==> ss[s] == Slot([], 0)
    ensures Stored(ss, m, loc) && Roomy(ss)
  {
  }

  lemma ScannedIsPlaced<K>(ss: seq<Slot<K>>, m: map<K, nat>, loc: map<K, nat>, hash: K -> nat, s: nat, inc: nat,
                           numSlots: nat)
    requires Stored(ss, m, loc) && s < |ss| && inc > 0
    requires forall k :: k in loc && (loc[k] < s || numSlots <= loc[k]) ==> loc[k] == hash(k) % inc
    requires forall j :: 0 <= j < |ss[s].entries| ==> hash(ss[s].entries[j].key) % inc == s
    ensures forall k :: k in loc && (loc[k] < s + 1 || numSlots <= loc[k]) ==> loc[k] == hash(k) % inc
  {
  }

  class HashMap<K(!new, ==)> {
    const hashFunc: K -> nat
    const same: (K, K) -> bool
    var slots: array<Slot<K>>
    var numSlots: nat
    var numData: nat
    ghost var m: map<K, nat>
    ghost var loc: map<K, nat>

    ghost predicate Shape()
      reads this, slots
    {
      && Lawful(hashFunc, same) && Apart(m.Keys, same)
      && numSlots == slots.Length && numData == |m|
      && Stored(slots[..], m, loc) && Roomy(slots[..])
    }

    /** Every entry is in the slot its key selects. */
    ghost predicate Settled()
      reads this
    {
      numSlots > 0 && forall k :: k in loc ==> loc[k] == hashFunc(k) % numSlots
    }

    ghost predicate Valid()
      reads this, slots
    {
      && Shape()
      && if numSlots == 0 then m == map[] else Settled() && numSlots >= 2 && numData < numSlots * 5
    }

    /** The map the table stands for. */
    ghost function Contents(): imap<K, nat>
      reads this
    {
      Meaning(m, same)
    }

    /** nt_hashmap_init_slots. */
    method InitSlots(initSize: nat)
      requires Lawful(hashFunc, same) && m == loc == map[]
      modifies this`slots, this`numSlots, this`numData
      ensures Valid() && fresh(slots) && if initSize > 0 then Numeric.IsNextPrime(initSize, numSlots) else numSlots == 0
    {
      numData := 0;
      if 0 < initSize {
        numSlots := Numeric.NextPrime(initSize);
        slots := new Slot<K>[numSlots](_ => Slot([], 0));
      } else {
        numSlots := 0;
        slots := new Slot<K>[0];
      }
    }

    constructor (hashFunc: K -> nat, same: (K, K) -> bool, initSize: nat)
      requires Lawful(hashFunc, same)
      ensures Valid() && fresh(slots) && Contents() == imap[] && this.hashFunc == hashFunc && this.same == same
      ensures if initSize > 0 then Numeric.IsNextPrime(initSize, numSlots) else numSlots == 0
    {
      this.hashFunc, this.same := hashFunc, same;
      numSlots, numData := 0, 0;
      slots := new Slot<K>[0];
      m, loc := map[], map[];
      new;
      InitSlots(initSize);
    }

    /** __hashmap_ensure_free_entry: there is room for one more entry. */
    method EnsureFree(s: nat)
      requires s < slots.Length && Roomy(slots[..])
      modifies slots
      ensures Roomy(slots[..]) && slots[..] == old(slots[..])[s := slots[s]]
      ensures slots[s].entries == old(slots[s].entries) && |slots[s].entries| < slots[s].alloc
      ensures slots[s].alloc == var a := old(slots[s].alloc);
                                if a == 0 then 6 else if old(|slots[s].entries|) == a then 2 * a else a
    {
      var slot := slots[s];
      if slot.alloc == 0 {
        slots[s] := Slot([], 6);
      } else if |slot.entries| == slot.alloc {
        slots[s] := slot.(alloc := slot.alloc * 2);
      }
    }

    /** Writing an entry where there is room for it. */
    method Append(s: nat, e: KV<K>)
      requires s < slots.Length && Roomy(slots[..])
      modifies slots
      ensures Roomy(slots[..]) && slots[..] == old(slots[..])[s := Slot(old(slots[s].entries) + [e], slots[s].alloc)]
    {
      EnsureFree(s);
      slots[s] := slots[s].(entries := slots[s].entries + [e]);
    }

    /** The search loop of get, set and remove. */
    method FindEntry(s: nat, k: K) returns (i: nat)
      requires s < slots.Length
      ensures i <= |slots[s].entries| && (i < |slots[s].entries| ==> same(slots[s].entries[i].key, k))
      ensures forall j :: 0 <= j < i ==> !same(slots[s].entries[j].key, k)
    {
      i := 0;
      while i < |slots[s].entries|
        invariant i <= |slots[s].entries|
        invariant forall j :: 0 <= j < i ==> !same(slots[s].entries[j].key, k)
      {
        if same(slots[s].entries[i].key, k) {
          return;
        }
        i := i + 1;
      }
    }

    /** A key can only be in the slot it selects. */
    lemma OnlyInSlot(s: nat, k: K)
      requires Valid() && numSlots > 0 && s == hashFunc(k) % numSlots
      ensures s < slots.Length
      ensures forall i :: 0 <= i < |slots[s].entries| ==>
                slots[s].entries[i].key in m && m[slots[s].entries[i].key] == slots[s].entries[i].value
      ensures HasKey(m, same, k) <==> exists i :: 0 <= i < |slots[s].entries| && same(slots[s].entries[i].key, k)
    {
    }

    /** nt_hashmap_get: an absent key reads as zero. */
    method Get(k: K) returns (value: nat)
      requires Valid()
      ensures value == if k in Contents() then Contents()[k] else 0
    {
      hide Stored, Roomy;
      value := 0;
      if numSlots == 0 {
        return;
      }
      var s := hashFunc(k) % numSlots;
      OnlyInSlot(s, k);
      var i := FindEntry(s, k);
      if i < |slots[s].entries| {
        value := slots[s].entries[i].value;
        ValueOf(m, hashFunc, same, slots[s].entries[i].key, k);
      }
    }

    /** The lookup kept out of the build: an absent key gives FAIL. */
    method GetOrFail(k: K) returns (value: int)
      requires Valid()
      ensures value == if k in Contents() then Contents()[k] else FAIL
    {
      hide Stored, Roomy;
      value := FAIL;
      if numSlots == 0 {
        return;
      }
      var s := hashFunc(k) % numSlots;
      OnlyInSlot(s, k);
      var i := FindEntry(s, k);
      if i < |slots[s].entries| {
        value := slots[s].entries[i].value;
        ValueOf(m, hashFunc, same, slots[s].entries[i].key, k);
      }
    }

    /** The value of the entry found is overwritten; its key stays. */
    method SetAt(s: nat, i: nat, ghost k: K, value: nat)
      requires Valid() && s < numSlots && i < |slots[s].entries| && same(slots[s].entries[i].key, k)
      modifies this`m, slots
      ensures Valid() && Contents() == Override(old(Contents()), same, k, value)
    {
      hide Stored, Meaning, Override, Lawful, Apart;
      ghost var ss, mm := slots[..], m;
      ghost var r := ss[s].entries[i].key;
      StoredSet(ss, mm, loc, s, i, value);
      slots[s] := slots[s].(entries := slots[s].entries[i := slots[s].entries[i].(value := value)]);
      m := m[r := value];
      assert m.Keys == mm.Keys;
      assert slots[..] == ss[s := ss[s].(entries := ss[s].entries[i := KV(r, value)])];
      MeaningSet(mm, hashFunc, same, r, k, value);
    }

    method AppendNew(s: nat, k: K, value: nat)
      requires Shape() && Settled() && s == hashFunc(k) % numSlots && !HasKey(m, same, k)
      modifies this`m, this`loc, this`numData, slots
      ensures Shape() && Settled() && numData == old(numData) + 1
      ensures Contents() == Override(old(Contents()), same, k, value)
    {
      hide Stored, Roomy, Meaning, Override, Apart, HasKey, Lawful;
      ghost var ss, mm, ll := slots[..], m, loc;
      NotStored(mm, hashFunc, same, k, value);
      MeaningSet(mm, hashFunc, same, k, k, value);
      Append(s, KV(k, value));
      StoredAppend(ss, mm, ll, s, KV(k, value), slots[s].alloc);
      numData := numData + 1;
      m := mm[k := value];
      loc := ll[k := s];
    }

    /** Entries in the slots below `s`, and in the new ones, are where the new size puts them. */
    ghost predicate Placed(s: nat, inc: nat)
      reads this
    {
      inc > 0 && forall k :: k in loc && (loc[k] < s || numSlots <= loc[k]) ==> loc[k] == hashFunc(k) % inc
    }

    ghost predicate Kept()
      reads this, slots
    {
      Stored(slots[..], m, loc) && Roomy(slots[..])
    }

    method MoveEntry(s: nat, i: nat, t: nat)
      requires Kept() && s < slots.Length && t < slots.Length && s != t && i < |slots[s].entries|
      modifies this`loc, slots
      ensures Kept() && loc == old(loc)[old(slots[s].entries[i].key) := t]
      ensures slots[s].entries == SwapOut(old(slots[s].entries), i)
    {
      hide Stored, Roomy, SwapOut;
      ghost var ss := slots[..];
      var e := slots[s].entries[i];
      Append(t, e);
      StoredMove(ss, m, loc, s, i, t, slots[t].alloc);
      label L:
      slots[s] := slots[s].(entries := SwapOut(slots[s].entries, i));
      RoomyShrunk(old@L(slots[..]), s, slots[s]);
      loc := loc[e.key := t];
      assert slots[..] == Swapped(ss, s, i, t, slots[t].alloc);
      assert slots[..] == old@L(slots[..])[s := slots[s]];
    }

    /** The inner loop of the rehash: every entry of one slot stays, or moves to where the new size puts it;
        the last entry takes the place of one that moved, and is looked at next. */
    method ScanSlot(s: nat, inc: nat)
      requires Kept() && Placed(s, inc) && s < numSlots <= inc == slots.Length
      modifies this`loc, slots
      ensures Kept() && Placed(s + 1, inc)
    {
      hide Stored, Roomy;
      var i := 0;
      while i < |slots[s].entries|
        invariant i <= |slots[s].entries| && Kept() && Placed(s, inc)
        invariant forall j :: 0 <= j < i ==> hashFunc(slots[s].entries[j].key) % inc == s
        decreases |slots[s].entries| - i
      {
        var t := hashFunc(slots[s].entries[i].key) % inc;
        if s != t {
          MoveEntry(s, i, t);
        } else {
          i := i + 1;
        }
      }
      ScannedIsPlaced(slots[..], m, loc, hashFunc, s, inc, numSlots);
    }

    /** The growth of the slot array and the rehash in place. */
    method Rehash(inc: nat)
      requires Kept() && 0 < numSlots == slots.Length < inc
      modifies this`slots, this`loc, this`numSlots
      ensures Kept() && fresh(slots) && numSlots == inc == slots.Length && Settled()
    {
      hide Stored, Roomy;
      var bigger := new Slot<K>[inc](i => Slot([], 0));
      var j := 0;
      while j < numSlots
        invariant j <= numSlots
        invariant forall i :: 0 <= i < inc ==> bigger[i] == if i < j then slots[i] else Slot([], 0)
        modifies bigger
      {
        bigger[j] := slots[j];
        j := j + 1;
      }
      StoredExtended(slots[..], bigger[..], m, loc);
      slots := bigger;
      var s := 0;
      while s < numSlots
        invariant s <= numSlots < inc == slots.Length && fresh(slots) && Kept() && Placed(s, inc)
      {
        ScanSlot(s, inc);
        s := s + 1;
      }
      numSlots := inc;
    }

    /** A key that was not there: its entry goes to the end of its slot, and the table grows if it is then too full. */
    method AddEntry(s: nat, k: K, value: nat)
      requires Valid() && numSlots > 0 && s == hashFunc(k) % numSlots && !HasKey(m, same, k)
      modifies this, slots
      ensures Valid() && (slots == old(slots) || fresh(slots))
      ensures Contents() == Override(old(Contents()), same, k, value)
      ensures if old(numData) + 1 >= old(numSlots) * 5 then Numeric.IsNextPrime(old(numSlots) * 3 / 2, numSlots)
              else numSlots == old(numSlots)
    {
      hide Stored, Roomy, Meaning, Override, Apart, HasKey, Lawful;
      AppendNew(s, k, value);
      if numData >= numSlots * 5 {
        var inc := Numeric.NextPrime(numSlots * 3 / 2);
        Rehash(inc);
      }
    }

    /** nt_hashmap_set. */
    method Set(k: K, value: nat)
      requires Valid()
      modifies this, slots
      ensures Valid() && (slots == old(slots) || fresh(slots))
      ensures Contents() == Override(old(Contents()), same, k, value)
      ensures old(numSlots) == 0 ==> Numeric.IsNextPrime(10, numSlots)
      ensures old(numSlots) > 0 ==>
                if !HasKey(old(m), same, k) && old(numData) + 1 >= old(numSlots) * 5
                then Numeric.IsNextPrime(old(numSlots) * 3 / 2, numSlots)
                else numSlots == old(numSlots)
    {
      hide Stored, Roomy, Meaning, Override;
      if numSlots == 0 {
        assert slots[..] == [];
        NothingStored(slots[..], m, loc);
        InitSlots(HASHMAP_DEFAULT_SLOTS);
      }
      var s := hashFunc(k) % numSlots;
      OnlyInSlot(s, k);
      var i := FindEntry(s, k);
      if i < |slots[s].entries| {
        SetAt(s, i, k, value);
      } else {
        AddEntry(s, k, value);
      }
    }

    // ----- removing -----

    /** The i-th entry of a slot is overwritten by the last one. */
    method ShrinkSlot(s: nat, i: nat)
      requires s < slots.Length && i < |slots[s].entries|
      modifies slots
      ensures slots[..] == old(slots[..])[s := old(slots[s]).(entries := SwapOut(old(slots[s].entries), i))]
    {
      slots[s] := slots[s].(entries := SwapOut(slots[s].entries, i));
    }

    method RemoveAt(s: nat, i: nat, ghost k: K)
      requires Valid() && s < numSlots && i < |slots[s].entries| && same(slots[s].entries[i].key, k)
      modifies this`m, this`loc, this`numData, slots
      ensures Valid() && Contents() == Without(old(Contents()), same, k)
    {
      hide Stored, Roomy, Meaning, Without, SwapOut, Lawful, Apart;
      ghost var ss, mm := slots[..], m;
      ghost var r := ss[s].entries[i].key;
      StoredRemove(ss, mm, loc, s, i);
      MeaningRemoved(mm, hashFunc, same, r, k);
      OneFewer(mm, r);
      RoomyShrunk(ss, s, slots[s].(entries := SwapOut(slots[s].entries, i)));
      ShrinkSlot(s, i);
      numData := numData - 1;
      m := mm - {r};
      loc := loc - {r};
    }

    /** nt_hashmap_remove: the last entry of the slot takes the place of the one removed. */
    method Remove(k: K)
      requires Valid()
      modifies this`m, this`loc, this`numData, slots
      ensures Valid() && Contents() == Without(old(Contents()), same, k)
    {
      hide Stored, Roomy, Meaning, Without, SwapOut;
      if numSlots == 0 {
        MeaningAbsent(m, same, k);
        return;
      }
      var s := hashFunc(k) % numSlots;
      OnlyInSlot(s, k);
      var i := FindEntry(s, k);
      if i < |slots[s].entries| {
        RemoveAt(s, i, k);
      } else {
        MeaningAbsent(m, same, k);
      }
    }

    /** nt_hashmap_clear: the entry arrays are given back; the slots stay. */
    method Clear()
      requires Valid()
      modifies this`m, this`loc, this`numData, slots
      ensures Valid() && Contents() == imap[] && numSlots == old(numSlots)
      ensures forall s :: 0 <= s < numSlots ==> slots[s] == Slot([], 0)
    {
      hide Stored, Roomy;
      var i := 0;
      while i < numSlots
        invariant i <= numSlots
        invariant forall s :: 0 <= s < i ==> slots[s] == Slot([], 0)
        invariant forall s :: i <= s < numSlots ==> slots[s] == old(slots[s])
        modifies slots
      {
        if slots[i].alloc != 0 {
          slots[i] := Slot([], 0);
        } else {
          UnallocatedIsEmpty(old(slots[..]), i);
        }
        i := i + 1;
      }
      numData := 0;
      m, loc := map[], map[];
      EmptyStored(slots[..], m, loc);
    }
  }
}
