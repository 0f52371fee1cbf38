/** The iterator of hashset.c, which allows the entry it stands on to be removed. */
module HashsetIter {
  import opened Hashing
  import opened Hashset
  import opened Sequences

  const ITER_START: int := -1
  const ITER_FINISH: int := -2

  /** The entries of the chains from one on, in the order the iterator meets them. */
  ghost function Joined<D>(chains: seq<seq<Entry<D>>>, from: nat): seq<Entry<D>>
    decreases |chains| - from
  {
    if from < |chains| then chains[from] + Joined(chains, from + 1) else []
  }

  lemma {:induction false} JoinedAlike<D>(cs: seq<seq<Entry<D>>>, ds: seq<seq<Entry<D>>>, from: nat)
    requires |cs| == |ds| && forall s :: from <= s < |cs| ==> cs[s] == ds[s]
    ensures Joined(cs, from) == Joined(ds, from)
    decreases |cs| - from
  {
    if from < |cs| {
      JoinedAlike(cs, ds, from + 1);
    }
  }

  ghost function HousedFrom<D>(home: map<Entry<D>, nat>, from: nat): set<Entry<D>> {
    set e | e in home && home[e] >= from
  }

  /** From any chain on, the iterator's order has each entry housed there, once. */
  lemma {:induction false} JoinedOnce<D>(chains: seq<seq<Entry<D>>>, home: map<Entry<D>, nat>, from: nat)
    requires Housed(chains, home)
    ensures NoDup(Joined(chains, from))
    ensures Elements(Joined(chains, from)) == HousedFrom(home, from)
    decreases |chains| - from
  {
    if from < |chains| {
      JoinedOnce(chains, home, from + 1);
      var a, b := chains[from], Joined(chains, from + 1);
      assert Elements(a + b) == Elements(a) + Elements(b);
      assert HousedFrom(home, from) == Elements(a) + HousedFrom(home, from + 1);
      forall i, j | 0 <= i < j < |a + b|
        ensures (a + b)[i] != (a + b)[j]
      {
        if i < |a| <= j {
          assert a[i] in a && home[a[i]] == from && b[j - |a|] in Elements(b);
        }
      }
    }
  }

  lemma AllOnce<D>(chains: seq<seq<Entry<D>>>, home: map<Entry<D>, nat>)
    requires Housed(chains, home)
    ensures NoDup(Joined(chains, 0)) && Elements(Joined(chains, 0)) == home.Keys
  {
    JoinedOnce(chains, home, 0);
    assert HousedFrom(home, 0) == home.Keys;
  }

  /** What the iterator has still to visit: `standing` says whether it is on an entry of its slot's chain. */
  ghost function RestFrom<D>(chains: seq<seq<Entry<D>>>, slot: int, standing: bool, pos: nat): seq<Entry<D>> {
    if slot < ITER_START then []
    else if slot < 0 || !standing || slot >= |chains| || pos >= |chains[slot]| then Joined(chains, slot + 1)
    else chains[slot][pos + 1..] + Joined(chains, slot + 1)
  }

  /** Removing the entry it stands on, and stepping back, leaves an iterator with the same entries to visit. */
  lemma StepBack<D>(chains: seq<seq<Entry<D>>>, slot: nat, pos: nat)
    requires slot < |chains| && pos < |chains[slot]|
    ensures pos == 0 ==> RestFrom(Removed(chains, slot, 0), slot - 1, false, 0) == RestFrom(chains, slot, true, 0)
    ensures pos > 0 ==> RestFrom(Removed(chains, slot, pos), slot, true, pos - 1) == RestFrom(chains, slot, true, pos)
  {
    var ds := Removed(chains, slot, pos);
    JoinedAlike(chains, ds, slot + 1);
    assert ds[slot][pos..] == chains[slot][pos + 1..];
    assert Joined(ds, slot) == ds[slot] + Joined(ds, slot + 1);
    assert ds[slot][0..] == ds[slot];
  }

  lemma TailOf<T>(c: seq<T>, pos: nat, rest: seq<T>)
    requires pos < |c|
    ensures pos + 1 < |c| ==> c[pos + 1..] + rest == [c[pos + 1]] + (c[pos + 2..] + rest)
    ensures pos + 1 == |c| ==> c[pos + 1..] + rest == rest
  {
  }

  /** Going on inside a chain, and at its end. */
  lemma RestNext<D>(chains: seq<seq<Entry<D>>>, slot: nat, pos: nat)
    requires slot < |chains| && pos < |chains[slot]|
    ensures if pos + 1 < |chains[slot]|
            then RestFrom(chains, slot, true, pos) == [chains[slot][pos + 1]] + RestFrom(chains, slot, true, pos + 1)
            else RestFrom(chains, slot, true, pos) == Joined(chains, slot + 1)
  {
    hide Joined;
    TailOf(chains[slot], pos, Joined(chains, slot + 1));
  }

  /** Coming to a slot. */
  lemma RestAtSlot<D>(chains: seq<seq<Entry<D>>>, slot: nat)
    ensures slot >= |chains| ==> Joined(chains, slot) == []
    ensures slot < |chains| && chains[slot] == [] ==> Joined(chains, slot) == Joined(chains, slot + 1)
    ensures slot < |chains| && chains[slot] != [] ==>
              Joined(chains, slot) == [chains[slot][0]] + RestFrom(chains, slot, true, 0)
  {
    if slot < |chains| && chains[slot] != [] {
      assert chains[slot] == [chains[slot][0]] + chains[slot][1..];
    }
  }

  lemma RestOutside<D>(chains: seq<seq<Entry<D>>>, slot: int, standing: bool, pos: nat)
    ensures slot < ITER_START ==> RestFrom(chains, slot, standing, pos) == []
    ensures slot == ITER_START || (slot >= 0 && !standing) ==>
              RestFrom(chains, slot, standing, pos) == Joined(chains, slot + 1)
  {
  }

  lemma Heads<D>(slots: seq<Entry?<D>>, chains: seq<seq<Entry<D>>>, links: map<Entry<D>, Entry?<D>>)
    requires AllLinked(slots, chains, links)
    ensures |slots| == |chains| && forall s :: 0 <= s < |chains| ==> slots[s] == Head(chains[s])
  {
  }

  class Iter<D(!new)> {
    const hs: HashSet<D>
    var slot: int
    var entry: Entry?<D>
    ghost var pos: nat

    ghost predicate Valid()
      reads this, hs, hs.slots, hs.home.Keys
    {
      && hs.Valid()
      && (slot == ITER_START || slot == ITER_FINISH || 0 <= slot < hs.numSlots)
      && (slot >= 0 && entry != null ==> pos < |hs.chains[slot]| && entry == EntryAt(hs.chains, slot, pos))
    }

    /** The entries still to be visited, in order. */
    ghost function Rest(): seq<Entry<D>>
      reads this, hs
    {
      RestFrom(hs.chains, slot, entry != null, pos)
    }

    /** nt_hashset_iter_reset: every entry of the set is to be visited, once. */
    constructor (hs: HashSet<D>)
      requires hs.Valid()
      ensures Valid() && this.hs == hs && NoDup(Rest()) && slot == ITER_START
      ensures Elements(Rest()) == hs.home.Keys
    {
      hide Housed, AllLinked, Recorded, Lawful, Joined, Elements, NoDup;
      this.hs, slot, entry := hs, ITER_START, null;
      new;
      AllOnce(hs.chains, hs.home);
    }

    /** The search for the next slot that is not empty. */
    method NextSlot() returns (e: Entry?<D>)
      requires Valid() && slot >= ITER_START
      modifies this
      ensures Valid()
      ensures e == null ==> slot == ITER_FINISH && Rest() == [] && old(Joined(hs.chains, slot + 1)) == []
      ensures e != null ==> [e] + Rest() == old(Joined(hs.chains, slot + 1)) && entry == e && slot >= 0
    {
      hide Housed, AllLinked, Recorded, Lawful, Links, HashSet.Settled, Joined, RestFrom;
      ghost var cs := hs.chains;
      ghost var rest := Joined(cs, slot + 1);
      Heads(hs.slots[..], cs, Links(hs.home.Keys));
      while true
        invariant ITER_START <= slot < hs.numSlots || slot == ITER_START
        invariant Joined(cs, slot + 1) == rest
        modifies this
        decreases hs.numSlots - slot
      {
        slot := slot + 1;
        RestAtSlot(cs, slot);
        if slot == hs.numSlots {
          slot := ITER_FINISH;
          RestOutside(cs, slot, entry != null, pos);
          return null;
        }
        if hs.slots[slot] != null {
          entry := hs.slots[slot];
          pos := 0;
          return entry;
        }
      }
    }

    /** nt_hashset_iter_next. */
    method Next() returns (e: Entry?<D>)
      requires Valid()
      modifies this
      ensures Valid()
      ensures e == null <==> old(Rest()) == []
      ensures e != null ==> [e] + Rest() == old(Rest()) && entry == e && slot >= 0
      ensures e == null ==> slot == ITER_FINISH && Rest() == []
    {
      hide Housed, AllLinked, Recorded, Lawful, HashSet.Settled, Joined, RestFrom;
      RestOutside(hs.chains, slot, entry != null, pos);
      if slot == ITER_FINISH {
        return null;
      }
      if slot != ITER_START && entry != null {
        NextOfLinked(hs.slots[..], hs.chains, Links(hs.home.Keys), slot, pos);
        RestNext(hs.chains, slot, pos);
      }
      if slot != ITER_START && entry != null && entry.next != null {
        entry := entry.next;
        pos := pos + 1;
        return entry;
      }
      e := NextSlot();
    }

    /** The entry is the first of its chain: the iterator steps back a slot, and stands on no entry. */
    method RemoveHead()
      requires Valid() && slot >= 0 && entry != null && hs.slots[slot] == entry && pos == 0
      modifies this, hs`chains, hs`home, hs`numData, hs.slots, hs.home.Keys
      ensures Valid() && Rest() == old(Rest())
      ensures old(entry) in old(hs.home) && hs.home == old(hs.home) - {old(entry)}
    {
      hide Housed, AllLinked, Recorded, Lawful, Links, Removed, HashSet.Settled, RestFrom;
      ghost var cs := hs.chains;
      StepBack(cs, slot, 0);
      hs.Drop(slot, null, entry, 0);
      slot := slot - 1;
      entry := null;
    }

    /** The walk from the head of the chain to the entry before the iterator's. */
    method FindBefore() returns (prev: Entry<D>)
      requires Valid() && slot >= 0 && entry != null && pos > 0
      ensures prev == EntryBefore(hs.chains, slot, pos)
    {
      hide Housed, AllLinked, Recorded, Lawful, HashSet.Settled;
      ghost var cs, ss, ls := hs.chains, hs.slots[..], Links(hs.home.Keys);
      HeadOfLinked(ss, cs, ls, slot);
      HousedApart(cs, hs.home, slot);
      prev := hs.slots[slot];
      ghost var k := 0;
      NextOfLinked(ss, cs, ls, slot, k);
      while prev.next != entry
        invariant k < pos && prev == EntryAt(cs, slot, k) && prev.next == After(cs[slot], k)
        decreases pos - k
      {
        prev := prev.next;
        k := k + 1;
        NextOfLinked(ss, cs, ls, slot, k);
      }
    }

    /** The entry has one before it: the iterator steps back onto that. */
    method RemoveInner()
      requires Valid() && slot >= 0 && entry != null && pos > 0
      modifies this, hs`chains, hs`home, hs`numData, hs.slots, hs.home.Keys
      ensures Valid() && Rest() == old(Rest())
      ensures old(entry) in old(hs.home) && hs.home == old(hs.home) - {old(entry)}
    {
      hide Housed, AllLinked, Recorded, Lawful, Links, Removed, HashSet.Settled, RestFrom;
      ghost var cs := hs.chains;
      var prev := FindBefore();
      StepBack(cs, slot, pos);
      hs.Drop(slot, prev, entry, pos);
      entry := prev;
      pos := pos - 1;
    }

    /** nt_hashset_iter_remove.  Through a bad iterator it reports and exits; `ok` is then false. */
    method Remove() returns (ok: bool)
      requires Valid()
      modifies this, hs`chains, hs`home, hs`numData, hs.slots, hs.home.Keys
      ensures Valid() && Rest() == old(Rest())
      ensures ok <==> old(slot) >= 0 && old(entry) != null
      ensures ok ==> old(entry) in old(hs.home) && hs.home == old(hs.home) - {old(entry)}
      ensures !ok ==> hs.home == old(hs.home)
    {
      hide Housed, AllLinked, Recorded, Lawful, Links;
      if slot == ITER_START || slot == ITER_FINISH || entry == null {
        return false;
      }
      HeadOfLinked(hs.slots[..], hs.chains, Links(hs.home.Keys), slot);
      HousedApart(hs.chains, hs.home, slot);
      if hs.slots[slot] == entry {
        RemoveHead();
      } else {
        RemoveInner();
      }
      return true;
    }
  }

  /** The entries a policy chooses, when it is asked once per visit. */
  ghost function Chosen<D>(visited: seq<Entry<D>>, drop: nat -> bool): set<Entry<D>> {
    set i | 0 <= i < |visited| && drop(i) :: visited[i]
  }

  /** A whole iteration, with `drop(i)` saying whether the i-th entry visited is removed before going on:
      it ends, visits every entry present at the reset exactly once, and removes exactly the chosen ones. */
  method Sweep<D(!new)>(hs: HashSet<D>, drop: nat -> bool) returns (ghost visited: seq<Entry<D>>)
    requires hs.Valid()
    modifies hs`chains, hs`home, hs`numData, hs.slots, hs.home.Keys
    ensures hs.Valid() && NoDup(visited)
    ensures Elements(visited) == old(hs.home.Keys)
    ensures hs.home == old(hs.home) - Chosen(visited, drop)
  {
    hide Housed, AllLinked, Recorded, Lawful, HashSet.Valid, Iter.Rest, Elements, NoDup;
    var iter := new Iter(hs);
    ghost var all, hm := iter.Rest(), hs.home;
    visited := [];
    var e := iter.Next();
    var i := 0;
    while e != null
      invariant iter.Valid() && hs.home.Keys <= hm.Keys && fresh(iter) && iter.hs == hs
      invariant e != null ==> visited + [e] + iter.Rest() == all && iter.entry == e && iter.slot >= 0
      invariant e == null ==> visited == all
      invariant hs.home == hm - Chosen(visited, drop)
      invariant i == |visited|
      decreases |all| - |visited|
    {
      visited := visited + [e];
      if drop(i) {
        var ok := iter.Remove();
      }
      e := iter.Next();
      i := i + 1;
    }
  }
}
