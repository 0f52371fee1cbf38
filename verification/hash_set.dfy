/** The chained hash set of hashset.c. */
module Hashset {
  import opened Hashing
  import opened Sequences
  import Numeric

  const DEFAULT_SLOTS: nat := 10

  class Entry<D> {
    const data: D
    const hash: nat
    var next: Entry?<D>

    constructor (data: D, hash: nat, next: Entry?<D>)
      ensures this.data == data && this.hash == hash && this.next == next
    {
      this.data, this.hash, this.next := data, hash, next;
    }
  }

  // ----- chains -----

  ghost function Head<D>(c: seq<Entry<D>>): Entry?<D> { if c == [] then null else c[0] }

  ghost function After<D>(c: seq<Entry<D>>, i: nat): Entry?<D>
    requires i < |c|
  {
    if i + 1 < |c| then c[i + 1] else null
  }

  /** The `next` fields of some entries, as a value. */
  ghost function Links<D>(es: set<Entry<D>>): map<Entry<D>, Entry?<D>>
    reads es
  {
    map e | e in es :: e.next
  }

  lemma LinksWith<D>(es: set<Entry<D>>, e: Entry<D>)
    ensures Links(es + {e}) == Links(es)[e := e.next] && (e !in es ==> e !in Links(es))
  {
  }

  /** The entries of `c`, in order, are what one meets on following the links from `head`. */
  ghost predicate Linked<D>(head: Entry?<D>, c: seq<Entry<D>>, links: map<Entry<D>, Entry?<D>>)
  {
    && head == Head(c)
    && forall i :: 0 <= i < |c| ==> c[i] in links && links[c[i]] == After(c, i)
  }

  /** Each entry is on exactly one chain, once: the one `home` says. */
  ghost predicate Housed<D>(chains: seq<seq<Entry<D>>>, home: map<Entry<D>, nat>)
  {
    && (forall s :: 0 <= s < |chains| ==> NoDup(chains[s]))
    && (forall s, e :: 0 <= s < |chains| && e in chains[s] ==> e in home && home[e] == s)
    && (forall e :: e in home ==> home[e] < |chains| && e in chains[home[e]])
  }

  ghost predicate AllLinked<D>(slots: seq<Entry?<D>>, chains: seq<seq<Entry<D>>>, links: map<Entry<D>, Entry?<D>>)
  {
    && |slots| == |chains|
    && forall s :: 0 <= s < |chains| ==> Linked(slots[s], chains[s], links)
  }

  /** Entries carry their datum's hash, and no two hold the same datum. */
  ghost predicate Recorded<D(!new)>(es: set<Entry<D>>, hash: D -> nat, same: (D, D) -> bool)
  {
    && (forall e :: e in es ==> e.hash == hash(e.data))
    && (forall e, f :: e in es && f in es && same(e.data, f.data) ==> e == f)
  }

  // ----- the mathematical set -----

  /** Everything equal to `d`. */
  ghost function Class<D(!new)>(d: D, same: (D, D) -> bool): iset<D> {
    iset x | same(d, x)
  }

  ghost predicate Holds<D(!new)>(es: set<Entry<D>>, same: (D, D) -> bool, d: D) {
    exists e :: e in es && same(e.data, d)
  }

  /** The set the entries stand for: everything equal to the datum of one of them. */
  ghost function Members<D(!new)>(es: set<Entry<D>>, same: (D, D) -> bool): iset<D> {
    iset x | Holds(es, same, x)
  }

  lemma MembersWith<D(!new)>(es: set<Entry<D>>, e: Entry<D>, d: D, hash: D -> nat, same: (D, D) -> bool)
    requires Lawful(hash, same) && same(e.data, d)
    ensures Members(es + {e}, same) == Members(es, same) + Class(d, same)
  {
  }

  lemma MembersWithout<D(!new)>(es: set<Entry<D>>, rest: set<Entry<D>>, d: D, hash: D -> nat, same: (D, D) -> bool)
    requires Lawful(hash, same) && rest <= es
    requires forall e :: e in es ==> (e in rest <==> !same(e.data, d))
    ensures Members(rest, same) == Members(es, same) - Class(d, same)
  {
  }

  // ----- chains and links, as values -----

  /** The chains without the k-th entry of one. */
  ghost function Removed<D>(chains: seq<seq<Entry<D>>>, slot: nat, k: nat): (r: seq<seq<Entry<D>>>)
    ensures |r| == |chains|
    ensures forall s :: 0 <= s < |r| && s != slot ==> r[s] == chains[s]
    ensures slot < |chains| && k < |chains[slot]| ==> r[slot] == RemoveAt(chains[slot], k)
  {
    if slot < |chains| && k < |chains[slot]| then chains[slot := RemoveAt(chains[slot], k)] else chains
  }

  ghost function LinksWithout<D>(links: map<Entry<D>, Entry?<D>>, prev: Entry?<D>,
                                 entry: Entry<D>): map<Entry<D>, Entry?<D>>
    requires entry in links
  {
    (if prev == null then links else links[prev := links[entry]]) - {entry}
  }

  ghost function SlotsWithout<D>(links: map<Entry<D>, Entry?<D>>, slots: seq<Entry?<D>>, slot: nat, prev: Entry?<D>,
                                 entry: Entry<D>): seq<Entry?<D>>
    requires entry in links && slot < |slots|
  {
    if prev == null then slots[slot := links[entry]] else slots
  }

  lemma LinkedWithout<D>(head: Entry?<D>, c: seq<Entry<D>>, links: map<Entry<D>, Entry?<D>>, k: nat)
    requires Linked(head, c, links) && NoDup(c) && k < |c|
    ensures c[k] in links
    ensures var prev := if k == 0 then null else c[k - 1];
            Linked(if k == 0 then links[c[k]] else head, RemoveAt(c, k), LinksWithout(links, prev, c[k]))
  {
  }

  /** What being housed says about one chain: its entries are in the table, and on no other chain. */
  lemma HousedApart<D>(chains: seq<seq<Entry<D>>>, home: map<Entry<D>, nat>, slot: nat)
    requires Housed(chains, home) && slot < |chains|
    ensures NoDup(chains[slot])
    ensures forall s, e :: 0 <= s < |chains| && e in chains[s] ==> e in home
    ensures forall s, e :: 0 <= s < |chains| && s != slot && e in chains[s] ==> e !in chains[slot]
  {
    forall s, e | 0 <= s < |chains| && s != slot && e in chains[s]
      ensures e !in chains[slot]
    {
      assert home[e] == s;
    }
  }

  lemma HousedWithout<D>(chains: seq<seq<Entry<D>>>, home: map<Entry<D>, nat>, slot: nat, k: nat)
    requires Housed(chains, home) && slot < |chains| && k < |chains[slot]|
    ensures Housed(Removed(chains, slot, k), home - {chains[slot][k]}) && chains[slot][k] in home
    ensures k > 0 ==> chains[slot][k - 1] in home && chains[slot][k - 1] != chains[slot][k]
  {
    var entry, ds := chains[slot][k], Removed(chains, slot, k);
    HousedApart(chains, home, slot);
    RemoveAtMembers(chains[slot], k);
    assert entry in chains[slot];
    forall e | e in home && e != entry
      ensures home[e] < |ds| && e in ds[home[e]]
    {
      assert e in chains[home[e]];
    }
    forall s, e | 0 <= s < |ds| && e in ds[s]
      ensures e in home && e != entry && home[e] == s
    {
      assert e in chains[s];
    }
  }

  lemma LinkedElsewhere<D>(head: Entry?<D>, d: seq<Entry<D>>, links: map<Entry<D>, Entry?<D>>,
                           ls: map<Entry<D>, Entry?<D>>,
                           c: seq<Entry<D>>, curr: Entry<D>, prev: Entry?<D>)
    requires Linked(head, d, links) && curr in c && (prev != null ==> prev in c) && forall e :: e in d ==> e !in c
    requires forall e :: e in links && e != curr && e != prev ==> e in ls && ls[e] == links[e]
    ensures Linked(head, d, ls)
  {
  }

  lemma DetachedChain<D>(slots: seq<Entry?<D>>, chains: seq<seq<Entry<D>>>, home: map<Entry<D>, nat>,
                         links: map<Entry<D>, Entry?<D>>,
                         slot: nat, k: nat)
    requires Housed(chains, home) && AllLinked(slots, chains, links) && slot < |chains| && k < |chains[slot]|
    ensures var entry, prev := chains[slot][k], if k == 0 then null else chains[slot][k - 1];
            && entry in home && entry in links && slot < |slots| && (prev != null ==> prev in home && prev != entry)
            && Housed(Removed(chains, slot, k), home - {entry})
            && AllLinked(SlotsWithout(links, slots, slot, prev, entry), Removed(chains, slot, k),
               LinksWithout(links, prev, entry))
  {
    hide Housed, Linked, RemoveAt, NoDup;
    var entry, prev := chains[slot][k], if k == 0 then null else chains[slot][k - 1];
    HousedApart(chains, home, slot);
    HousedWithout(chains, home, slot, k);
    assert Linked(slots[slot], chains[slot], links);
    LinkedWithout(slots[slot], chains[slot], links, k);
    assert entry in chains[slot];
    var ss, ls := SlotsWithout(links, slots, slot, prev, entry), LinksWithout(links, prev, entry);
    forall s | 0 <= s < |chains| && s != slot
      ensures Linked(ss[s], chains[s], ls)
    {
      LinkedElsewhere(slots[s], chains[s], links, ls, chains[slot], entry, prev);
    }
  }

  lemma FewerRecorded<D(!new)>(home: map<Entry<D>, nat>, entry: Entry<D>, hash: D -> nat, same: (D, D) -> bool)
    requires Recorded(home.Keys, hash, same) && entry in home
    ensures Recorded((home - {entry}).Keys, hash, same) && |home - {entry}| == |home| - 1
  {
  }

  lemma OnlyOneSame<D(!new)>(home: map<Entry<D>, nat>, entry: Entry<D>, d: D, hash: D -> nat, same: (D, D) -> bool)
    requires Recorded(home.Keys, hash, same) && Lawful(hash, same) && entry in home && same(entry.data, d)
    ensures forall e :: e in home && same(e.data, d) ==> e == entry
  {
  }

  lemma NotOnChain<D>(chains: seq<seq<Entry<D>>>, home: map<Entry<D>, nat>, slot: nat, target: Entry<D>)
    requires Housed(chains, home) && slot < |chains| && target !in chains[slot]
    requires target in home ==> home[target] == slot
    ensures target !in home && home == home - {target}
  {
  }

  lemma NobodyHoused<D>(chains: seq<seq<Entry<D>>>, home: map<Entry<D>, nat>)
    requires Housed(chains, home) && forall s :: 0 <= s < |chains| ==> chains[s] == []
    ensures home == map[]
  {
  }

  lemma NothingRecorded<D(!new)>(hash: D -> nat, same: (D, D) -> bool, home: map<Entry<D>, nat>)
    requires home == map[]
    ensures Recorded(home.Keys, hash, same)
  {
  }

  /** Growth is strict, and leaves the load below the critical one after one more entry. */
  lemma GrowthMakesRoom(n: nat, inc: nat, d: nat)
    requires n >= 2 && inc >= n * 3 / 2 && d < n * 4 / 5
    ensures inc > n && d + 1 < inc * 4 / 5
  {
  }

  lemma NoSlotsNoEntries<D>(chains: seq<seq<Entry<D>>>, home: map<Entry<D>, nat>)
    requires Housed(chains, home) && |chains| == 0
    ensures home == map[]
  {
  }

  lemma AddedRecord<D(!new)>(home: map<Entry<D>, nat>, slot: nat, entry: Entry<D>, hash: D -> nat, same: (D, D) -> bool)
    requires Recorded(home.Keys, hash, same) && Lawful(hash, same) && entry !in home && entry.hash == hash(entry.data)
    requires !exists e :: e in home && same(e.data, entry.data)
    ensures Recorded(home[entry := slot].Keys, hash, same) && |home[entry := slot]| == |home| + 1
    ensures home[entry := slot].Keys == home.Keys + {entry} && same(entry.data, entry.data)
  {
    forall e, f | e in home[entry := slot] && f in home[entry := slot] && same(e.data, f.data)
      ensures e == f
    {
      assert same(f.data, e.data);
    }
    assert home[entry := slot].Keys == home.Keys + {entry};
  }

  lemma AddedChain<D>(slots: seq<Entry?<D>>, chains: seq<seq<Entry<D>>>, home: map<Entry<D>, nat>,
                      links: map<Entry<D>, Entry?<D>>,
                      slot: nat, entry: Entry<D>)
    requires Housed(chains, home) && AllLinked(slots, chains, links) && slot < |chains| && entry !in home
             && entry !in links
    ensures var ds := chains[slot := [entry] + chains[slot]];
            && Housed(ds, home[entry := slot]) && slot < |slots|
            && AllLinked(slots[slot := entry], ds, links[entry := slots[slot]])
  {
  }

  lemma ExtendChains<D>(slots: seq<Entry?<D>>, bigger: seq<Entry?<D>>, chains: seq<seq<Entry<D>>>,
                        home: map<Entry<D>, nat>,
                        links: map<Entry<D>, Entry?<D>>, inc: nat)
    requires Housed(chains, home) && AllLinked(slots, chains, links) && |chains| <= inc == |bigger|
    requires forall j :: 0 <= j < inc ==> bigger[j] == if j < |slots| then slots[j] else null
    ensures var ds := chains + seq(inc - |chains|, _ => []); Housed(ds, home) && AllLinked(bigger, ds, links)
    ensures forall e :: e in home ==> home[e] < |chains|
  {
    var ds := chains + seq(inc - |chains|, _ => []);
    forall s | 0 <= s < |ds|
      ensures Linked(bigger[s], ds[s], links) && NoDup(ds[s])
    {
      if s < |chains| {
        assert Linked(slots[s], chains[s], links);
      }
    }
    forall e | e in home
      ensures home[e] < |ds| && e in ds[home[e]]
    {
      assert e in chains[home[e]];
    }
  }

  lemma HeadOfLinked<D>(slots: seq<Entry?<D>>, chains: seq<seq<Entry<D>>>, links: map<Entry<D>, Entry?<D>>, slot: nat)
    requires AllLinked(slots, chains, links) && slot < |chains|
    ensures slot < |slots| && slots[slot] == Head(chains[slot])
  {
  }

  lemma NextOfLinked<D>(slots: seq<Entry?<D>>, chains: seq<seq<Entry<D>>>, links: map<Entry<D>, Entry?<D>>, slot: nat,
                        k: nat)
    requires AllLinked(slots, chains, links) && slot < |chains| && k < |chains[slot]|
    ensures chains[slot][k] in links && links[chains[slot][k]] == After(chains[slot], k)
    ensures slot < |slots|
  {
  }

  lemma ScannedIsPlaced<D>(chains: seq<seq<Entry<D>>>, home: map<Entry<D>, nat>, slot: nat, inc: nat, numSlots: nat)
    requires Housed(chains, home) && slot < |chains| && inc > 0
    requires forall e :: e in home && (home[e] < slot || numSlots <= home[e]) ==> home[e] == e.hash % inc
    requires forall i :: 0 <= i < |chains[slot]| ==> chains[slot][i].hash % inc == slot
    ensures forall e :: e in home && (home[e] < slot + 1 || numSlots <= home[e]) ==> home[e] == e.hash % inc
  {
  }

  /** The k-th entry of a chain, or null past its end. */
  ghost function EntryAt<D>(chains: seq<seq<Entry<D>>>, slot: nat, k: nat): Entry?<D> {
    if slot < |chains| && k < |chains[slot]| then chains[slot][k] else null
  }

  ghost function EntryBefore<D>(chains: seq<seq<Entry<D>>>, slot: nat, k: nat): Entry?<D> {
    if k == 0 then null else EntryAt(chains, slot, k - 1)
  }

  /** The chains after the k-th entry of one went to the front of another. */
  ghost function Moved<D>(chains: seq<seq<Entry<D>>>, slot: nat, newSlot: nat, k: nat): (r: seq<seq<Entry<D>>>)
    ensures |r| == |chains|
  {
    if slot < |chains| && newSlot < |chains| && k < |chains[slot]|
    then chains[slot := RemoveAt(chains[slot], k)][newSlot := [chains[slot][k]] + chains[newSlot]]
    else chains
  }

  /** The chains once those entries of one chain, from its k-th on, that belong elsewhere were moved there in turn. */
  ghost function Scanned<D>(chains: seq<seq<Entry<D>>>, slot: nat, inc: nat, k: nat): seq<seq<Entry<D>>>
    requires inc > 0
    decreases if slot < |chains| then |chains[slot]| - k else 0
  {
    if slot >= |chains| || k >= |chains[slot]| then chains
    else
      var t := chains[slot][k].hash % inc;
      if t == slot then Scanned(chains, slot, inc, k + 1)
      else if t < |chains| then Scanned(Moved(chains, slot, t, k), slot, inc, k)
      else chains
  }

  lemma ScannedNext<D>(chains: seq<seq<Entry<D>>>, slot: nat, inc: nat, k: nat)
    requires inc > 0 && slot < inc == |chains|
    ensures if k >= |chains[slot]| then Scanned(chains, slot, inc, k) == chains
            else
              var t := chains[slot][k].hash % inc;
              Scanned(chains, slot, inc, k) ==
                  if t == slot then Scanned(chains, slot, inc, k + 1)
                  else Scanned(Moved(chains, slot, t, k), slot, inc, k)
  {
    hide Moved;
  }

  /** The chains once all of them from `s` up to `n` were gone through. */
  ghost function Rehashed<D>(chains: seq<seq<Entry<D>>>, inc: nat, s: nat, n: nat): seq<seq<Entry<D>>>
    requires inc > 0
    decreases n - s
  {
    if s >= n then chains else Rehashed(Scanned(chains, s, inc, 0), inc, s + 1, n)
  }

  /** The chains after growing: empty ones are added, and then all that were there before gone through. */
  ghost function Grown<D>(chains: seq<seq<Entry<D>>>, inc: nat): seq<seq<Entry<D>>> {
    if inc <= |chains| then chains else Rehashed(chains + seq(inc - |chains|, _ => []), inc, 0, |chains|)
  }

  ghost function LinksMoved<D>(links: map<Entry<D>, Entry?<D>>, slots: seq<Entry?<D>>, prev: Entry?<D>, curr: Entry<D>,
                               newSlot: nat): map<Entry<D>, Entry?<D>>
    requires curr in links && newSlot < |slots|
  {
    var ls := links[curr := slots[newSlot]];
    if prev == null then ls else ls[prev := links[curr]]
  }

  ghost function SlotsMoved<D>(links: map<Entry<D>, Entry?<D>>, slots: seq<Entry?<D>>, slot: nat, prev: Entry?<D>,
                               curr: Entry<D>, newSlot: nat): seq<Entry?<D>>
    requires curr in links && newSlot < |slots| && slot < |slots|
  {
    var ss := slots[newSlot := curr];
    if prev == null then ss[slot := links[curr]] else ss
  }

  lemma LinkedOut<D>(head: Entry?<D>, c: seq<Entry<D>>, links: map<Entry<D>, Entry?<D>>, k: nat, to: Entry?<D>)
    requires Linked(head, c, links) && NoDup(c) && k < |c|
    ensures var ls := links[c[k] := to];
            Linked(if k == 0 then links[c[k]] else head, RemoveAt(c, k),
                   if k == 0 then ls else ls[c[k - 1] := links[c[k]]])
  {
  }

  lemma LinkedIn<D>(head: Entry?<D>, d: seq<Entry<D>>, ls: map<Entry<D>, Entry?<D>>, curr: Entry<D>, prev: Entry?<D>,
                    links: map<Entry<D>, Entry?<D>>, c: seq<Entry<D>>)
    requires Linked(head, d, links) && curr in c && (prev != null ==> prev in c) && forall e :: e in d ==> e !in c
    requires forall e :: e in links && e != curr && e != prev ==> e in ls && ls[e] == links[e]
    requires curr in ls && ls[curr] == head
    ensures Linked(curr, [curr] + d, ls)
  {
  }

  lemma LinkedMove<D>(slots: seq<Entry?<D>>, chains: seq<seq<Entry<D>>>, home: map<Entry<D>, nat>,
                      links: map<Entry<D>, Entry?<D>>,
                      slot: nat, newSlot: nat, k: nat)
    requires Housed(chains, home) && AllLinked(slots, chains, links)
    requires slot < |chains| && newSlot < |chains| && slot != newSlot && k < |chains[slot]|
    ensures var curr, prev := chains[slot][k], if k == 0 then null else chains[slot][k - 1];
            && curr in links && newSlot < |slots| && slot < |slots|
            && AllLinked(SlotsMoved(links, slots, slot, prev, curr, newSlot), Moved(chains, slot, newSlot, k),
                         LinksMoved(links, slots, prev, curr, newSlot))
  {
    var curr, prev := chains[slot][k], if k == 0 then null else chains[slot][k - 1];
    var ss, ls := SlotsMoved(links, slots, slot, prev, curr, newSlot), LinksMoved(links, slots, prev, curr, newSlot);
    hide Housed;
    HousedApart(chains, home, slot);
    assert Linked(slots[slot], chains[slot], links) && Linked(slots[newSlot], chains[newSlot], links);
    LinkedOut(slots[slot], chains[slot], links, k, slots[newSlot]);
    LinkedIn(slots[newSlot], chains[newSlot], ls, curr, prev, links, chains[slot]);
    forall s | 0 <= s < |chains| && s != slot && s != newSlot
      ensures Linked(ss[s], chains[s], ls)
    {
      LinkedElsewhere(slots[s], chains[s], links, ls, chains[slot], curr, prev);
    }
  }

  lemma HousedMove<D>(chains: seq<seq<Entry<D>>>, home: map<Entry<D>, nat>, slot: nat, newSlot: nat, k: nat)
    requires Housed(chains, home) && slot < |chains| && newSlot < |chains| && slot != newSlot && k < |chains[slot]|
    ensures var curr := chains[slot][k];
            && Housed(Moved(chains, slot, newSlot, k), home[curr := newSlot])
            && Moved(chains, slot, newSlot, k)[slot] == RemoveAt(chains[slot], k)
            && curr in home && home[curr := newSlot].Keys == home.Keys
            && (k > 0 ==> chains[slot][k - 1] in home)
  {
    var curr := chains[slot][k];
    HousedApart(chains, home, slot);
    RemoveAtMembers(chains[slot], k);
    assert curr in chains[slot] && curr !in chains[newSlot];
    var ds, hm := chains[slot := RemoveAt(chains[slot], k)][newSlot := [curr] + chains[newSlot]], home[curr := newSlot];
    forall e | e in hm
      ensures hm[e] < |ds| && e in ds[hm[e]]
    {
      if e != curr {
        assert e in chains[home[e]];
      }
    }
    forall s, e | 0 <= s < |ds| && e in ds[s]
      ensures e in hm && hm[e] == s
    {
      if e != curr {
        assert e in chains[s];
      }
    }
  }

  /** The chains with a new entry, if there is one, in front of one of them. */
  ghost function WithFront<D>(chains: seq<seq<Entry<D>>>, slot: nat, entry: Entry?<D>): seq<seq<Entry<D>>> {
    if entry == null || slot >= |chains| then chains else chains[slot := [entry] + chains[slot]]
  }

  lemma NoFront<D>(chains: seq<seq<Entry<D>>>, slot: nat)
    ensures WithFront(chains, slot, null) == chains
  {
  }

  class HashSet<D(!new)> {
    const hashFunc: D -> nat
    const same: (D, D) -> bool
    var slots: array<Entry?<D>>
    var numSlots: nat
    var numData: nat
    ghost var chains: seq<seq<Entry<D>>>
    ghost var home: map<Entry<D>, nat>

    /** Pointers, chains and counters agree; no two entries hold the same datum. */
    ghost predicate Shape()
      reads this, slots, home.Keys
    {
      && Lawful(hashFunc, same)
      && numSlots == slots.Length == |chains| && numData == |home|
      && Housed(chains, home) && AllLinked(slots[..], chains, Links(home.Keys))
      && Recorded(home.Keys, hashFunc, same)
    }

    /** Every entry is in the slot its hash selects. */
    ghost predicate Settled()
      reads this
    {
      forall e :: e in home ==> numSlots > 0 && home[e] == e.hash % numSlots
    }

    ghost predicate Valid()
      reads this, slots, home.Keys
    {
      && Shape() && Settled()
      && (numSlots != 0 ==> numSlots >= 2 && numData < numSlots * 4 / 5)
    }

    /** The set the table stands for. */
    ghost function Contents(): iset<D>
      reads this
    {
      Members(home.Keys, same)
    }

    ghost predicate Has(d: D)
      reads this
    {
      Holds(home.Keys, same, d)
    }

    // ----- moving one entry -----

    ghost predicate Chained()
      reads this, slots, home.Keys
    {
      Housed(chains, home) && AllLinked(slots[..], chains, Links(home.Keys))
    }

    /** Takes the k-th entry out of its chain and puts it first in another: `*prev_next` and the new slot change. */
    method MoveEntry(slot: nat, prev: Entry?<D>, curr: Entry<D>, newSlot: nat, ghost k: nat) returns (tmp: Entry?<D>)
      requires Chained() && slot < |chains| && newSlot < |chains| && slot != newSlot
      requires curr == EntryAt(chains, slot, k) && prev == EntryBefore(chains, slot, k)
      modifies this`chains, this`home, slots, home.Keys
      ensures Chained() && home.Keys == old(home.Keys)
      ensures chains == Moved(old(chains), slot, newSlot, k) && home == old(home)[curr := newSlot]
      ensures tmp == EntryAt(chains, slot, k)
    {
      hide Housed, AllLinked, Linked, RemoveAt, NoDup, Moved;
      ghost var cs, hm, ls, ss := chains, home, Links(home.Keys), slots[..];
      HousedMove(cs, hm, slot, newSlot, k);
      LinkedMove(ss, cs, hm, ls, slot, newSlot, k);
      NextOfLinked(ss, cs, ls, slot, k);
      tmp := curr.next;
      curr.next := slots[newSlot];
      slots[newSlot] := curr;
      if prev == null {
        slots[slot] := tmp;
      } else {
        prev.next := tmp;
      }
      chains := Moved(cs, slot, newSlot, k);
      home := hm[curr := newSlot];
      assert Links(home.Keys) == LinksMoved(ls, ss, prev, curr, newSlot);
    }

    // ----- growing -----

    /** Entries on the chains below `slot`, and on the new ones, are where the new size puts them. */
    ghost predicate Placed(slot: nat, inc: nat)
      reads this
    {
      inc > 0 && forall e :: e in home && (home[e] < slot || numSlots <= home[e]) ==> home[e] == e.hash % inc
    }

    /** The inner loop of the rehash: every entry of one chain stays, or moves to where the new size puts it. */
    method ScanChain(slot: nat, inc: nat)
      requires Chained() && slot < numSlots <= inc == |chains| == slots.Length && Placed(slot, inc)
      modifies this`chains, this`home, slots, home.Keys
      ensures Chained() && home.Keys == old(home.Keys) && |chains| == inc && Placed(slot + 1, inc)
      ensures chains == Scanned(old(chains), slot, inc, 0)
    {
      hide Housed, AllLinked, Scanned;
      ghost var keys := home.Keys;
      var prev: Entry?<D> := null;
      var curr := slots[slot];
      ghost var k := 0;
      HeadOfLinked(slots[..], chains, Links(home.Keys), slot);
      while curr != null
        invariant |chains| == inc && Chained() && home.Keys == keys && Placed(slot, inc)
        invariant k <= |chains[slot]| && curr == EntryAt(chains, slot, k) && prev == EntryBefore(chains, slot, k)
        invariant forall i :: 0 <= i < k ==> chains[slot][i].hash % inc == slot
        invariant Scanned(chains, slot, inc, k) == Scanned(old(chains), slot, inc, 0)
        decreases |chains[slot]| - k
      {
        ScannedNext(chains, slot, inc, k);
        var newSlot := curr.hash % inc;
        if slot != newSlot {
          curr := MoveEntry(slot, prev, curr, newSlot, k);
        } else {
          NextOfLinked(slots[..], chains, Links(home.Keys), slot, k);
          prev := curr;
          curr := curr.next;
          k := k + 1;
        }
      }
      ScannedNext(chains, slot, inc, k);
      ScannedIsPlaced(chains, home, slot, inc, numSlots);
    }

    /** The reallocated slot array: the old slots, then empty ones. */
    method Extend(inc: nat)
      requires Chained() && numSlots == |chains| == slots.Length < inc
      modifies this`slots, this`chains
      ensures Chained() && fresh(slots) && |chains| == inc == slots.Length
      ensures Placed(0, inc) && chains == old(chains) + seq(inc - |old(chains)|, _ => [])
    {
      hide Housed, AllLinked, Links;
      ghost var ls := Links(home.Keys);
      var bigger := new Entry?<D>[inc];
      var i := 0;
      while i < inc
        invariant i <= inc
        invariant forall j :: 0 <= j < i ==> bigger[j] == if j < numSlots then slots[j] else null
        modifies bigger
      {
        bigger[i] := if i < numSlots then slots[i] else null;
        i := i + 1;
      }
      ExtendChains(slots[..], bigger[..], chains, home, ls, inc);
      slots := bigger;
      chains := chains + seq(inc - numSlots, _ => []);
    }

    /** The growth of the slot array and the rehash in place: entries move while their chains are
        scanned, into chains already scanned, still to be scanned, or new. */
    method Rehash(inc: nat)
      requires Chained() && 0 < numSlots == |chains| == slots.Length < inc
      modifies this`slots, this`chains, this`home, this`numSlots, home.Keys
      ensures Chained() && home.Keys == old(home.Keys) && fresh(slots)
      ensures numSlots == inc == |chains| == slots.Length
      ensures Settled() && chains == Grown(old(chains), inc)
    {
      hide Housed, AllLinked, Links, Scanned;
      ghost var keys := home.Keys;
      var n := numSlots;
      Extend(inc);
      var slot := 0;
      while slot < n
        invariant slot <= n == numSlots && inc == |chains| == slots.Length
        invariant Chained() && home.Keys == keys && fresh(slots) && Placed(slot, inc)
        invariant Rehashed(chains, inc, slot, n) == Grown(old(chains), inc)
        decreases n - slot
      {
        ScanChain(slot, inc);
        slot := slot + 1;
      }
      numSlots := inc;
    }

    /** Growing changes where the entries are, not which there are. */
    method Grow(inc: nat)
      requires Shape() && 0 < numSlots < inc
      modifies this`slots, this`chains, this`home, this`numSlots, home.Keys
      ensures Shape() && Settled() && home.Keys == old(home.Keys) && fresh(slots) && numSlots == inc
      ensures chains == Grown(old(chains), inc)
    {
      hide Housed, AllLinked, Recorded, Lawful, Links, Settled, Grown;
      ghost var size := |home.Keys|;
      Rehash(inc);
      assert |home| == |home.Keys| == size;
    }

    // ----- searching -----

    predicate Matches(e: Entry<D>, hash: nat, d: D)
      reads this
    {
      e.hash == hash && same(e.data, d)
    }

    /** The search loop of insert, search and remove. */
    method FindIn(slot: nat, hash: nat, d: D) returns (prev: Entry?<D>, entry: Entry?<D>, ghost k: nat)
      requires Chained() && slot < |chains|
      ensures k <= |chains[slot]| && entry == EntryAt(chains, slot, k) && prev == EntryBefore(chains, slot, k)
      ensures forall i :: 0 <= i < k ==> !Matches(chains[slot][i], hash, d)
      ensures entry != null ==> k < |chains[slot]| && Matches(entry, hash, d)
      ensures entry == null ==> k == |chains[slot]|
      ensures if entry == null then forall e :: e in chains[slot] ==> !Matches(e, hash, d)
              else entry in chains[slot] && Matches(entry, hash, d)
    {
      hide Housed, AllLinked;
      prev := null;
      HeadOfLinked(slots[..], chains, Links(home.Keys), slot);
      entry := slots[slot];
      k := 0;
      while entry != null
        invariant k <= |chains[slot]| && entry == EntryAt(chains, slot, k) && prev == EntryBefore(chains, slot, k)
        invariant forall i :: 0 <= i < k ==> !Matches(chains[slot][i], hash, d)
        decreases |chains[slot]| - k
      {
        if entry.hash == hash && same(entry.data, d) {
          return;
        }
        NextOfLinked(slots[..], chains, Links(home.Keys), slot, k);
        prev := entry;
        entry := entry.next;
        k := k + 1;
      }
    }

    /** A datum can only be in the slot its hash selects. */
    lemma OnlyInSlot(slot: nat, d: D)
      requires Valid() && numSlots > 0 && slot == hashFunc(d) % numSlots
      ensures slot < |chains|
      ensures Has(d) <==> exists e :: e in chains[slot] && Matches(e, hashFunc(d), d)
      ensures forall e :: e in chains[slot] ==> e in home
    {
    }

    /** nt_hashset_search. */
    method Search(d: D) returns (entry: Entry?<D>)
      requires Valid()
      ensures entry != null ==> entry in home && same(entry.data, d)
      ensures entry == null <==> d !in Contents()
    {
      hide Housed, AllLinked;
      if numSlots == 0 {
        NoSlotsNoEntries(chains, home);
        return null;
      }
      var hash := hashFunc(d);
      var slot := hash % numSlots;
      OnlyInSlot(slot, d);
      ghost var k;
      var prev;
      prev, entry, k := FindIn(slot, hash, d);
      if entry != null {
        assert entry in chains[slot];
      }
    }

    // ----- inserting -----

    /** The state a failed first allocation leaves: a number of slots, but no slots.  No later call notices. */
    ghost predicate Stranded()
      reads this
    {
      numSlots > 0 && slots.Length == 0 && home == map[]
    }

    /** nt_hashset_init_slots.  A NULL array of slots is an empty one here. */
    method InitSlots(initSize: nat, slotsOk: bool) returns (ok: bool)
      requires Lawful(hashFunc, same) && home == map[]
      modifies this`slots, this`numSlots, this`numData, this`chains
      ensures ok <==> initSize == 0 || slotsOk
      ensures if ok then Valid() else Stranded()
      ensures fresh(slots) && numData == 0
              && if initSize > 0 then Numeric.IsNextPrime(initSize, numSlots) else numSlots == 0
    {
      numData := 0;
      ok := true;
      if 0 < initSize {
        numSlots := Numeric.NextPrime(initSize);
        if !slotsOk {
          slots := new Entry?<D>[0];
          return false;
        }
        slots := new Entry?<D>[numSlots](_ => null);
      } else {
        numSlots := 0;
        slots := new Entry?<D>[0];
      }
      chains := seq(numSlots, _ => []);
      assert home.Keys == {};
    }

    /** nt_hashset_create_ext, which does not look at whether the slots could be allocated. */
    constructor (hashFunc: D -> nat, same: (D, D) -> bool, initSize: nat, slotsOk: bool)
      requires Lawful(hashFunc, same)
      ensures this.hashFunc == hashFunc && this.same == same
      ensures Contents() == iset{} && fresh(slots) && home.Keys == {}
      ensures if initSize > 0 then Numeric.IsNextPrime(initSize, numSlots) else numSlots == 0
      ensures if initSize > 0 && !slotsOk then Stranded() else Valid()
    {
      this.hashFunc, this.same := hashFunc, same;
      numSlots, numData := 0, 0;
      chains, home := [], map[];
      slots := new Entry?<D>[0];
      new;
      var ok := InitSlots(initSize, slotsOk);
    }

    method SetSlot(slot: nat, entry: Entry<D>, ghost keys: set<Entry<D>>)
      requires slot < slots.Length
      modifies slots
      ensures slots[..] == old(slots[..])[slot := entry] && Links(keys) == old(Links(keys))
    {
      slots[slot] := entry;
    }

    method Enlist(entry: Entry<D>, slot: nat)
      requires Shape() && entry !in home && !Has(entry.data)
      requires numSlots > 0 && entry.hash == hashFunc(entry.data) && slot == entry.hash % numSlots
               && entry.next == slots[slot]
      modifies this`numData, this`chains, this`home, slots
      ensures Shape() && same(entry.data, entry.data)
      ensures chains == WithFront(old(chains), slot, entry)
      ensures home == old(home)[entry := slot] && numData == old(numData) + 1
    {
      hide Housed, AllLinked, Recorded, Lawful, Links;
      ghost var cs, hm, ls, ss := chains, home, Links(home.Keys), slots[..];
      ghost var keys := hm.Keys + {entry};
      AddedRecord(hm, slot, entry, hashFunc, same);
      LinksWith(hm.Keys, entry);
      AddedChain(ss, cs, hm, ls, slot, entry);
      SetSlot(slot, entry, keys);
      numData := numData + 1;
      chains := cs[slot := [entry] + cs[slot]];
      home := hm[entry := slot];
      assert home.Keys == keys;
    }

    /** A new entry goes to the front of its chain. */
    method AddFront(d: D, hash: nat, slot: nat) returns (entry: Entry<D>)
      requires Shape() && Settled() && numSlots > 0 && hash == hashFunc(d) && slot == hash % numSlots && !Has(d)
      modifies this`numData, this`chains, this`home, slots
      ensures Shape() && Settled() && fresh(entry) && entry.data == d && same(d, d)
      ensures chains == WithFront(old(chains), slot, entry)
      ensures home == old(home)[entry := slot] && numData == old(numData) + 1
    {
      hide Housed, AllLinked, Recorded, Lawful, Links;
      entry := new Entry(d, hash, slots[slot]);
      Enlist(entry, slot);
    }

    /** The part of the insertion for a datum that is not in the set: growth when the load is critical, and a new
        entry. */
    method InsertNew(d: D, hash: nat, slot0: nat, slotsOk: bool, entryOk: bool) returns (entry: Entry?<D>)
      requires Valid() && numSlots > 0 && hash == hashFunc(d) && slot0 == hash % numSlots && !Has(d)
      modifies this, slots, home.Keys
      ensures Valid() && (slots == old(slots) || fresh(slots))
      ensures slotsOk && entryOk ==> entry != null
      ensures entry == null ==> home.Keys == old(home.Keys)
      ensures entry != null ==> fresh(entry) && entry.data == d && same(d, d) && home.Keys == old(home.Keys) + {entry}
      ensures if old(numData) + 1 >= old(numSlots) * 4 / 5 && slotsOk
              then Numeric.IsNextPrime(old(numSlots) * 3 / 2, numSlots)
                   && chains == WithFront(Grown(old(chains), numSlots), hash % numSlots, entry)
              else numSlots == old(numSlots) && chains == WithFront(old(chains), slot0, entry)
    {
      hide Shape, Settled, Holds, Links, WithFront, Grown;
      var slot := slot0;
      if numData + 1 >= numSlots * 4 / 5 {
        var inc := Numeric.NextPrime(numSlots * 3 / 2);
        GrowthMakesRoom(numSlots, inc, numData);
        if !slotsOk {
          NoFront(chains, slot0);
          return null;
        }
        Grow(inc);
        slot := hash % numSlots;
      }
      if !entryOk {
        NoFront(chains, slot);
        return null;
      }
      entry := AddFront(d, hash, slot);
    }

    /** nt_hashset_insert.  Whether the two allocations it may make succeed is up to the caller; when one it needs
        fails, the contents are as before, and the set stays valid just when that is not the very first one of the
        slots. */
    method Insert(d: D, slotsOk: bool, entryOk: bool) returns (entry: Entry?<D>)
      requires Valid()
      modifies this, slots, home.Keys
      ensures if old(numSlots) == 0 && !slotsOk then Stranded() && entry == null else Valid()
      ensures (slots == old(slots) || fresh(slots)) && forall e :: e in home ==> e in old(home) || fresh(e)
      ensures entry != null ==> entry in home && same(entry.data, d)
      ensures old(Has(d)) ==> entry != null && home.Keys == old(home.Keys)
      ensures slotsOk && entryOk ==> entry != null
      ensures entry == null ==> home.Keys == old(home.Keys)
      ensures !old(Has(d)) && entry != null ==>
                entry !in old(home) && entry.data == d && home.Keys == old(home.Keys) + {entry}
      ensures Contents() == if entry == null then old(Contents()) else old(Contents()) + Class(d, same)
      ensures old(numSlots) == 0 ==> Numeric.IsNextPrime(10, numSlots)
      ensures old(numSlots) > 0 ==>
                if !old(Has(d)) && old(numData) + 1 >= old(numSlots) * 4 / 5 && slotsOk
                then Numeric.IsNextPrime(old(numSlots) * 3 / 2, numSlots)
                else numSlots == old(numSlots)
      ensures old(numSlots) > 0 ==>
                && numSlots > 0
                && chains == if old(Has(d)) then old(chains)
                             else WithFront(if numSlots == old(numSlots) then old(chains)
                                            else Grown(old(chains), numSlots),
                                            hashFunc(d) % numSlots, entry)
    {
      hide Housed, AllLinked, Recorded, Lawful, Members, Class, WithFront, Grown;
      ghost var keys := home.Keys;
      if numSlots == 0 {
        NoSlotsNoEntries(chains, home);
        var ok := InitSlots(DEFAULT_SLOTS, slotsOk);
        if !ok {
          return null;
        }
      }
      var hash := hashFunc(d);
      var slot := hash % numSlots;
      OnlyInSlot(slot, d);
      ghost var k;
      var prev;
      prev, entry, k := FindIn(slot, hash, d);
      if entry != null {
        assert entry in chains[slot];
      } else {
        entry := InsertNew(d, hash, slot, slotsOk, entryOk);
      }
      if entry != null {
        assert home.Keys == keys + {entry};
        MembersWith(keys, entry, d, hashFunc, same);
      }
    }

    // ----- removing -----

    /** Takes the k-th entry out of its chain: the slot, or the entry before it, is linked past it. */
    method Detach(slot: nat, prev: Entry?<D>, entry: Entry<D>, ghost k: nat)
      requires Chained() && slot < |chains| && k < |chains[slot]|
      requires entry == EntryAt(chains, slot, k) && prev == EntryBefore(chains, slot, k)
      modifies this`chains, this`home, slots, home.Keys
      ensures Chained() && home == old(home) - {entry} && entry in old(home)
      ensures chains == Removed(old(chains), slot, k) && entry.next == old(entry.next)
    {
      hide Housed, AllLinked, Linked, RemoveAt, NoDup, Removed;
      ghost var cs, hm, ls, ss := chains, home, Links(home.Keys), slots[..];
      DetachedChain(ss, cs, hm, ls, slot, k);
      if prev == null {
        slots[slot] := entry.next;
      } else {
        prev.next := entry.next;
      }
      chains := Removed(cs, slot, k);
      home := hm - {entry};
      assert Links(home.Keys) == LinksWithout(ls, prev, entry);
    }

    /** Unlinking an entry and counting one less. */
    method Drop(slot: nat, prev: Entry?<D>, entry: Entry<D>, ghost k: nat)
      requires Valid() && slot < |chains| && k < |chains[slot]|
      requires entry == EntryAt(chains, slot, k) && prev == EntryBefore(chains, slot, k)
      modifies this`chains, this`home, this`numData, slots, home.Keys
      ensures Valid() && home == old(home) - {entry} && entry in old(home)
      ensures chains == Removed(old(chains), slot, k) && entry.next == old(entry.next)
    {
      hide Housed, AllLinked, Recorded, Lawful, Links, Removed;
      ghost var hm := home;
      Detach(slot, prev, entry, k);
      FewerRecorded(hm, entry, hashFunc, same);
      numData := numData - 1;
    }

    /** nt_hashset_remove. */
    method Remove(d: D)
      requires Valid()
      modifies this`chains, this`home, this`numData, slots, home.Keys
      ensures Valid() && Contents() == old(Contents()) - Class(d, same)
      ensures home.Keys <= old(home.Keys)
      ensures forall e :: e in old(home) ==> (e in home <==> !same(e.data, d))
    {
      hide Housed, AllLinked, Recorded, Lawful, Links, Removed, Members, Class;
      if numSlots == 0 {
        NoSlotsNoEntries(chains, home);
        MembersWithout(home.Keys, home.Keys, d, hashFunc, same);
        return;
      }
      var hash := hashFunc(d);
      var slot := hash % numSlots;
      OnlyInSlot(slot, d);
      ghost var hm := home;
      ghost var k;
      var prev, entry;
      prev, entry, k := FindIn(slot, hash, d);
      if entry != null {
        assert entry in chains[slot];
        OnlyOneSame(hm, entry, d, hashFunc, same);
        Drop(slot, prev, entry, k);
      }
      MembersWithout(hm.Keys, home.Keys, d, hashFunc, same);
    }

    /** nt_hashset_remove_direct: the entry is looked for by its address. */
    method RemoveDirect(target: Entry<D>)
      requires Valid()
      modifies this`chains, this`home, this`numData, slots, home.Keys
      ensures Valid() && home == old(home) - {target}
    {
      hide Housed, AllLinked, Recorded, Lawful, Removed;
      if numSlots == 0 {
        NoSlotsNoEntries(chains, home);
        return;
      }
      var slot := target.hash % numSlots;
      HeadOfLinked(slots[..], chains, Links(home.Keys), slot);
      var entry := slots[slot];
      if entry == null {
        NotOnChain(chains, home, slot, target);
      } else if entry == target {
        Drop(slot, null, target, 0);
      } else {
        ghost var k := 0;
        NextOfLinked(slots[..], chains, Links(home.Keys), slot, k);
        while entry.next != null
          invariant Valid() && home == old(home) && slots == old(slots) && slot < |chains|
          invariant k < |chains[slot]| && entry == EntryAt(chains, slot, k) && entry.next == After(chains[slot], k)
          invariant target !in chains[slot][..k + 1]
          decreases |chains[slot]| - k
        {
          if entry.next == target {
            Drop(slot, entry, target, k + 1);
            return;
          }
          entry := entry.next;
          k := k + 1;
          NextOfLinked(slots[..], chains, Links(home.Keys), slot, k);
        }
        NotOnChain(chains, home, slot, target);
      }
    }

    method ClearChain(slot: nat)
      requires Chained() && slot < |chains| == slots.Length
      modifies this`chains, this`home, slots, home.Keys
      ensures Chained() && home.Keys <= old(home.Keys) && |chains| == old(|chains|) && chains[slot] == []
      ensures forall s :: 0 <= s < |chains| && s != slot ==> chains[s] == old(chains[s])
    {
      hide Housed, AllLinked, Links;
      HeadOfLinked(slots[..], chains, Links(home.Keys), slot);
      while slots[slot] != null
        invariant Chained() && home.Keys <= old(home.Keys) && |chains| == old(|chains|)
        invariant slots[slot] == Head(chains[slot])
        invariant forall s :: 0 <= s < |chains| && s != slot ==> chains[s] == old(chains[s])
        decreases |chains[slot]|
      {
        Detach(slot, null, slots[slot], 0);
        HeadOfLinked(slots[..], chains, Links(home.Keys), slot);
      }
    }

    /** nt_hashset_clear: the chains are emptied from the front; the slots stay. */
    method Clear()
      requires Valid()
      modifies this`chains, this`home, this`numData, slots, home.Keys
      ensures Valid() && home == map[] && Contents() == iset{} && numSlots == old(numSlots)
    {
      hide Housed, AllLinked, Recorded, Lawful, Links, Removed;
      var slot := 0;
      while slot < numSlots
        invariant slot <= numSlots && Chained() && home.Keys <= old(home.Keys)
        invariant |chains| == slots.Length == numSlots
        invariant forall s :: 0 <= s < slot ==> chains[s] == []
      {
        ClearChain(slot);
        slot := slot + 1;
      }
      numData := 0;
      NobodyHoused(chains, home);
      NothingRecorded(hashFunc, same, home);
    }
  }
}
