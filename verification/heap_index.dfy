/** The key index of the binary heap: the hash map, with keys compared as numbers, from keys to positions. */
module HeapIndex {
  import opened Hashing
  import opened Hashmap

  ghost predicate IsEquality(same: (nat, nat) -> bool) {
    forall a, b :: same(a, b) <==> a == b
  }

  /** What the index lookup compiled into the library gives: an absent key reads as zero. */
  function LookupBuilt(idx: map<nat, nat>, k: nat): int {
    if k in idx then idx[k] else 0
  }

  /** What the heap was written for: an absent key reads as FAIL. */
  function Lookup(idx: map<nat, nat>, k: nat): int {
    if k in idx then idx[k] else FAIL
  }

  lemma IndexReads(m: map<nat, nat>, same: (nat, nat) -> bool, k: nat)
    requires IsEquality(same)
    ensures k in Meaning(m, same) <==> k in m
    ensures k in m ==> Meaning(m, same)[k] == m[k]
    ensures Lookup(m, k) == if k in Meaning(m, same) then Meaning(m, same)[k] else FAIL
    ensures LookupBuilt(m, k) == if k in Meaning(m, same) then Meaning(m, same)[k] else 0
  {
    assert k in m <==> HasKey(m, same, k) by {
      assert same(k, k);
    }
  }

  ghost function AsInfinite(m: map<nat, nat>): imap<nat, nat> {
    imap x | x in m :: m[x]
  }

  lemma MeaningIsItself(m: map<nat, nat>, same: (nat, nat) -> bool)
    requires IsEquality(same)
    ensures Meaning(m, same) == AsInfinite(m)
  {
    forall x
      ensures (x in Meaning(m, same) <==> x in m) && (x in m ==> Meaning(m, same)[x] == m[x])
    {
      IndexReads(m, same, x);
    }
  }

  lemma IndexWrites(m: map<nat, nat>, same: (nat, nat) -> bool, k: nat, v: nat)
    requires IsEquality(same)
    ensures Override(Meaning(m, same), same, k, v) == Meaning(m[k := v], same)
    ensures Without(Meaning(m, same), same, k) == Meaning(m - {k}, same)
  {
    hide Meaning;
    MeaningIsItself(m, same);
    MeaningIsItself(m[k := v], same);
    MeaningIsItself(m - {k}, same);
    assert Override(AsInfinite(m), same, k, v) == AsInfinite(m[k := v]);
    assert Without(AsInfinite(m), same, k) == AsInfinite(m - {k});
  }

  /** Maps with the same meaning are the same. */
  lemma MeaningTells(m: map<nat, nat>, n: map<nat, nat>, same: (nat, nat) -> bool)
    requires IsEquality(same) && Meaning(m, same) == Meaning(n, same)
    ensures m == n
  {
    hide Meaning;
    MeaningIsItself(m, same);
    MeaningIsItself(n, same);
    forall x
      ensures (x in m <==> x in n) && (x in m ==> m[x] == n[x])
    {
      assert x in AsInfinite(m) <==> x in AsInfinite(n);
    }
  }

  /** The hash map as an index: a valid one, with keys compared as numbers. */
  ghost predicate IsIndex(table: HashMap<nat>)
    reads table, table.slots
  {
    table.Valid() && IsEquality(table.same)
  }

  method SetKey(table: HashMap<nat>, k: nat, v: nat)
    requires IsIndex(table)
    modifies table, table.slots
    ensures IsIndex(table) && table.m == old(table.m)[k := v] && (table.slots == old(table.slots) || fresh(table.slots))
  {
    hide HashMap.Valid, Meaning, Override, IsEquality;
    ghost var m := table.m;
    IndexWrites(m, table.same, k, v);
    table.Set(k, v);
    MeaningTells(table.m, m[k := v], table.same);
  }

  method RemoveKey(table: HashMap<nat>, k: nat)
    requires IsIndex(table)
    modifies table, table.slots
    ensures IsIndex(table) && table.m == old(table.m) - {k} && table.slots == old(table.slots)
  {
    hide HashMap.Valid, Meaning, Without, IsEquality;
    ghost var m := table.m;
    IndexWrites(m, table.same, k, 0);
    table.Remove(k);
    MeaningTells(table.m, m - {k}, table.same);
  }

  lemma MeaningOfNone(m: map<nat, nat>, same: (nat, nat) -> bool)
    requires m == map[]
    ensures Meaning(m, same) == imap[]
  {
  }

  method ClearKeys(table: HashMap<nat>)
    requires IsIndex(table)
    modifies table, table.slots
    ensures IsIndex(table) && table.m == map[] && table.slots == old(table.slots)
  {
    hide HashMap.Valid, IsEquality, Meaning;
    table.Clear();
    MeaningOfNone(map[], table.same);
    MeaningTells(table.m, map[], table.same);
  }

  /** The lookup, either way. */
  method FindKey(table: HashMap<nat>, k: nat, fails: bool) returns (i: int)
    requires IsIndex(table)
    ensures i == if fails then Lookup(table.m, k) else LookupBuilt(table.m, k)
  {
    hide HashMap.Valid, Meaning, IsEquality;
    IndexReads(table.m, table.same, k);
    if fails {
      i := table.GetOrFail(k);
    } else {
      i := table.Get(k);
    }
  }
}
