/**
  The server directory `_all_servers`: a JavaScript `Set` of address keys.
  Such a set iterates in insertion order, so it is modelled as a sequence
  without duplicates to which `add` appends only a key it does not hold yet.
 */
module Directory {

  function Elems(s: seq<string>): set<string>
  {
    set x | x in s
  }

  predicate NoDup(s: seq<string>)
  {
    forall i, j :: 0 <= i < j < |s| ==> s[i] != s[j]
  }

  /** `Set.prototype.add` on a set of strings. */
  function Insert(s: seq<string>, a: string): (r: seq<string>)
    ensures Elems(r) == Elems(s) + {a}
    ensures s <= r
    ensures NoDup(s) ==> NoDup(r)
  {
    if a in s then s else s + [a]
  }

  /** Adding the keys `addrs` one after the other. */
  function InsertAll(s: seq<string>, addrs: seq<string>): (r: seq<string>)
    ensures Elems(r) == Elems(s) + Elems(addrs)
    ensures s <= r
    ensures NoDup(s) ==> NoDup(r)
    decreases |addrs|
  {
    if |addrs| == 0 then s
    else
      var n := |addrs| - 1;
      assert addrs == addrs[..n] + [addrs[n]];
      Insert(InsertAll(s, addrs[..n]), addrs[n])
  }

  /** Adding keys that are all present already changes nothing. */
  lemma {:induction false} InsertAllPresent(s: seq<string>, addrs: seq<string>)
    requires Elems(addrs) <= Elems(s)
    ensures InsertAll(s, addrs) == s
    decreases |addrs|
  {
    if |addrs| > 0 {
      var n := |addrs| - 1;
      assert addrs == addrs[..n] + [addrs[n]];
      InsertAllPresent(s, addrs[..n]);
    }
  }

  /** Adding the same keys a second time changes nothing. */
  lemma InsertAllIdempotent(s: seq<string>, addrs: seq<string>)
    ensures InsertAll(InsertAll(s, addrs), addrs) == InsertAll(s, addrs)
  {
    InsertAllPresent(InsertAll(s, addrs), addrs);
  }
}
