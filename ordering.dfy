/**
 * The two orders the controllers ask the database for: newest row first
 * (`orderBy: { createdAt: 'desc' }` and `{ timestamp: 'desc' }`, where
 * creation order is row order) and approval steps by ascending sequence.
 */
module Ordering {
  import opened Entities

  /** The row ids below `n` that `keep` selects, newest (highest) first. */
  function RowsDesc(n: nat, keep: nat -> bool): (r: seq<nat>)
    ensures forall i: nat :: i in r <==> i < n && keep(i)
    ensures forall a, b :: 0 <= a < b < |r| ==> r[a] > r[b]
  {
    if n == 0 then []
    else
      var rest := RowsDesc(n - 1, keep);
      assert forall b :: 0 <= b < |rest| ==> rest[b] in rest;
      if keep(n - 1) then [n - 1] + rest else rest
  }

  predicate SortedBySequence(s: seq<Step>) {
    forall i, j :: 0 <= i < j < |s| ==> s[i].sequence <= s[j].sequence
  }

  /** Every step of `s` has a sequence of at least `v`. */
  predicate AtLeast(v: int, s: seq<Step>) {
    forall i :: 0 <= i < |s| ==> v <= s[i].sequence
  }

  function Insert(x: Step, s: seq<Step>): (r: seq<Step>)
    requires SortedBySequence(s)
    ensures SortedBySequence(r)
    ensures multiset(r) == multiset(s) + multiset{x}
    ensures forall v :: AtLeast(v, s) && v <= x.sequence ==> AtLeast(v, r)
  {
    if s == [] then [x]
    else if x.sequence <= s[0].sequence then [x] + s
    else
      var rest := Insert(x, s[1..]);
      assert AtLeast(s[0].sequence, s[1..]);
      assert s == [s[0]] + s[1..];
      [s[0]] + rest
  }

  /** `orderBy: { sequence: 'asc' }`: the same steps, by ascending sequence. */
  function SortBySequence(s: seq<Step>): (r: seq<Step>)
    ensures SortedBySequence(r)
    ensures multiset(r) == multiset(s)
  {
    if s == [] then []
    else
      assert s == [s[0]] + s[1..];
      Insert(s[0], SortBySequence(s[1..]))
  }
}
