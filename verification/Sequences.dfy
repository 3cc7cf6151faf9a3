/**
 Notions about sequences that lists of every kind need.
 */
module Sequences {

  ghost predicate NoRepeats<T>(l: seq<T>) {
    forall i, j :: 0 <= i < j < |l| ==> l[i] != l[j]
  }

  ghost function Members<T(!new)>(l: seq<T>): set<T> {
    set x | x in l
  }

  lemma {:induction false} MembersCount<T(!new)>(l: seq<T>)
    requires NoRepeats(l)
    ensures |Members(l)| == |l|
  {
    if l == [] {
      assert Members(l) == {};
    } else {
      var n := |l| - 1;
      MembersCount(l[..n]);
      assert l == l[..n] + [l[n]];
      assert Members(l) == Members(l[..n]) + {l[n]};
    }
  }

  /** x put in before position i. */
  function Inserted<T>(l: seq<T>, i: nat, x: T): seq<T>
    requires i <= |l|
  {
    l[..i] + [x] + l[i..]
  }

  /** The element at position i taken out. */
  function Without<T>(l: seq<T>, i: nat): seq<T>
    requires i < |l|
  {
    l[..i] + l[i + 1..]
  }
}
