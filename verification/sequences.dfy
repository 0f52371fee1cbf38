/** Sequences without duplicates, which stand for linked lists. */
module Sequences {
  ghost predicate NoDup<T>(l: seq<T>)
  {
    forall i, j :: 0 <= i < j < |l| ==> l[i] != l[j]
  }

  ghost function Elements<T>(l: seq<T>): set<T> {
    set x | x in l
  }

  ghost function RemoveAt<T>(l: seq<T>, j: nat): (r: seq<T>)
    requires j < |l|
    ensures |r| == |l| - 1
    ensures forall i :: 0 <= i < |r| ==> r[i] == if i < j then l[i] else l[i + 1]
  {
    l[..j] + l[j + 1..]
  }

  /** The list without the first occurrence of `u`. */
  ghost function Minus<T>(l: seq<T>, u: T): seq<T> {
    if l == [] then [] else if l[0] == u then l[1..] else [l[0]] + Minus(l[1..], u)
  }

  lemma {:induction false} MinusIsRemoveAt<T>(l: seq<T>, j: nat)
    requires j < |l| && NoDup(l)
    ensures Minus(l, l[j]) == RemoveAt(l, j)
  {
    if j > 0 {
      MinusIsRemoveAt(l[1..], j - 1);
      assert l[1..][j - 1] == l[j];
    }
  }

  lemma RemoveAtMembers<T>(l: seq<T>, j: nat)
    requires j < |l| && NoDup(l)
    ensures NoDup(RemoveAt(l, j))
    ensures forall u :: u in RemoveAt(l, j) <==> u in l && u != l[j]
  {
    var r := RemoveAt(l, j);
    forall u | u in l && u != l[j]
      ensures u in r
    {
      var i :| 0 <= i < |l| && l[i] == u;
      assert r[if i < j then i else i - 1] == u;
    }
  }
}
