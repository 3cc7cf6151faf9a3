/**
 The circular doubly linked lists of include/list.h.

 A link is a number; next[l] and prev[l] are its two fields.  The first `heads` links are list
 heads, the others are embedded in the structures that go on the lists.  lists[h] is what a walk
 from head h sees.
 */
module Links {
  import opened Sequences

  /** The link after position i of walk r follows the one at i, in both directions. */
  ghost predicate Joined(next: seq<nat>, prev: seq<nat>, r: seq<nat>, i: nat)
    requires i < |r| - 1
  {
    r[i] < |next| && r[i + 1] < |prev| && next[r[i]] == r[i + 1] && prev[r[i + 1]] == r[i]
  }

  /** Both pointers of every link on the closed walk r agree with it. */
  ghost predicate Ring(next: seq<nat>, prev: seq<nat>, r: seq<nat>) {
    forall i :: 0 <= i < |r| - 1 ==> Joined(next, prev, r, i)
  }

  /** The walk over list l from head h back to h. */
  ghost function Walk(h: nat, l: seq<nat>): seq<nat> {
    [h] + l + [h]
  }

  /** A walk that meets no link twice, except that it ends where it starts. */
  ghost predicate Closed(w: seq<nat>) {
    forall i, j :: 0 <= i < j < |w| && w[i] == w[j] ==> i == 0 && j == |w| - 1
  }

  lemma WalkClosed(h: nat, l: seq<nat>)
    requires NoRepeats(l) && h !in l
    ensures Closed(Walk(h, l))
    ensures forall x :: x in Walk(h, l) <==> x in l || x == h
  {
    var w := Walk(h, l);
    assert forall k :: 0 < k < |w| - 1 ==> w[k] == l[k - 1];
  }

  /** The four assignments of list_insert_after keep the ring they insert into. */
  lemma RingInsert(next: seq<nat>, prev: seq<nat>, w: seq<nat>, i: nat, x: nat)
    requires Ring(next, prev, w) && Closed(w) && i < |w| - 1
    requires |next| == |prev| && x < |next| && x !in w
    ensures w[i] < |next| && w[i + 1] < |next| && next[w[i]] == w[i + 1]
    ensures Ring(next[x := w[i + 1]][w[i] := x], prev[w[i + 1] := x][x := w[i]], Inserted(w, i + 1, x))
  {
    assert Joined(next, prev, w, i);
    var next', prev' := next[x := w[i + 1]][w[i] := x], prev[w[i + 1] := x][x := w[i]];
    var w' := Inserted(w, i + 1, x);
    forall k | 0 <= k < |w'| - 1 ensures Joined(next', prev', w', k) {
      if k < i {
        assert w'[k] == w[k] && w'[k + 1] == w[k + 1] && Joined(next, prev, w, k);
      } else if k > i + 1 {
        assert w'[k] == w[k - 1] && w'[k + 1] == w[k] && Joined(next, prev, w, k - 1);
      }
    }
  }

  /** The assignments of list_remove keep the ring they remove from. */
  lemma RingRemove(next: seq<nat>, prev: seq<nat>, w: seq<nat>, i: nat)
    requires Ring(next, prev, w) && Closed(w) && 0 < i < |w| - 1
    requires |next| == |prev|
    ensures w[i - 1] < |next| && w[i] < |next| && w[i + 1] < |next|
    ensures prev[w[i]] == w[i - 1] && next[w[i]] == w[i + 1]
    ensures Ring(next[w[i - 1] := w[i + 1]][w[i] := w[i]], prev[w[i + 1] := w[i - 1]][w[i] := w[i]], Without(w, i))
  {
    assert Joined(next, prev, w, i - 1) && Joined(next, prev, w, i);
    var next', prev' := next[w[i - 1] := w[i + 1]][w[i] := w[i]], prev[w[i + 1] := w[i - 1]][w[i] := w[i]];
    var w' := Without(w, i);
    forall k | 0 <= k < |w'| - 1 ensures Joined(next', prev', w', k) {
      if k < i - 1 {
        assert w'[k] == w[k] && w'[k + 1] == w[k + 1] && Joined(next, prev, w, k);
      } else if k > i - 1 {
        assert w'[k] == w[k + 1] && w'[k + 1] == w[k + 2] && Joined(next, prev, w, k + 1);
      }
    }
  }

  /** A ring none of whose links is written keeps. */
  lemma RingFrame(next: seq<nat>, prev: seq<nat>, next': seq<nat>, prev': seq<nat>, r: seq<nat>)
    requires Ring(next, prev, r) && |next'| == |next| && |prev'| == |prev|
    requires forall x :: x in r && x < |next| ==> next'[x] == next[x]
    requires forall x :: x in r && x < |prev| ==> prev'[x] == prev[x]
    ensures Ring(next', prev', r)
  {
    forall i | 0 <= i < |r| - 1 ensures Joined(next', prev', r, i) {
      assert Joined(next, prev, r, i);
      assert r[i + 1] in r;
    }
  }

  /** Every listed link is past the heads, and is on one list only, once. */
  ghost predicate OnOneList(heads: nat, lists: seq<seq<nat>>) {
    && (forall h :: 0 <= h < |lists| ==> NoRepeats(lists[h]))
    && (forall h, x :: 0 <= h < |lists| && x in lists[h] ==> heads <= x)
    && (forall h, g, x :: 0 <= h < |lists| && 0 <= g < |lists| && x in lists[h] && x in lists[g] ==> h == g)
  }

  lemma InsertedMembers(l: seq<nat>, i: nat, x: nat)
    requires i <= |l|
    ensures forall y :: y in Inserted(l, i, x) <==> y in l || y == x
    ensures NoRepeats(l) && x !in l ==> NoRepeats(Inserted(l, i, x))
  {
    assert l == l[..i] + l[i..];
    if NoRepeats(l) && x !in l {
      var m := Inserted(l, i, x);
      forall a, b | 0 <= a < b < |m| ensures m[a] != m[b] {
        assert a < i ==> m[a] == l[a];
        assert a > i ==> m[a] == l[a - 1];
        assert b < i ==> m[b] == l[b];
        assert b > i ==> m[b] == l[b - 1];
      }
    }
  }

  lemma RemovedMembers(l: seq<nat>, i: nat)
    requires i < |l| && NoRepeats(l)
    ensures forall y :: y in Without(l, i) <==> y in l && y != l[i]
    ensures NoRepeats(Without(l, i))
  {
    var m := Without(l, i);
    forall a | 0 <= a < |m| ensures m[a] == l[if a < i then a else a + 1] {}
    forall y | y in l && y != l[i] ensures y in m {
      var k :| 0 <= k < |l| && l[k] == y;
      assert m[if k < i then k else k - 1] == y;
    }
  }

  /** The pointers hold exactly the given lists. */
  ghost predicate Holds(next: seq<nat>, prev: seq<nat>, heads: nat, lists: seq<seq<nat>>) {
    && |lists| == heads <= |next| == |prev|
    && OnOneList(heads, lists)
    && forall h :: 0 <= h < heads ==> Ring(next, prev, Walk(h, lists[h]))
  }

  /** A write to the links of one ring, and to a link on no list, leaves the other rings alone. */
  lemma OtherRing(next: seq<nat>, prev: seq<nat>, next': seq<nat>, prev': seq<nat>, heads: nat, lists: seq<seq<nat>>,
                  h: nat, g: nat, a: nat, b: nat, x: nat)
    requires Holds(next, prev, heads, lists) && h < heads && g < heads && g != h
    requires a in Walk(h, lists[h]) && b in Walk(h, lists[h])
    requires heads <= x && x !in lists[g]
    requires |next'| == |next| && |prev'| == |prev|
    requires forall y :: 0 <= y < |next| && y != a && y != b && y != x ==> next'[y] == next[y] && prev'[y] == prev[y]
    ensures Ring(next', prev', Walk(g, lists[g]))
  {
    WalkClosed(h, lists[h]);
    WalkClosed(g, lists[g]);
    RingFrame(next, prev, next', prev', Walk(g, lists[g]));
  }

  lemma OneListInsert(heads: nat, lists: seq<seq<nat>>, h: nat, i: nat, x: nat)
    requires OnOneList(heads, lists) && h < |lists| && i <= |lists[h]|
    requires heads <= x && forall g :: 0 <= g < |lists| ==> x !in lists[g]
    ensures OnOneList(heads, lists[h := Inserted(lists[h], i, x)])
  {
    InsertedMembers(lists[h], i, x);
  }

  lemma OneListRemove(heads: nat, lists: seq<seq<nat>>, h: nat, i: nat)
    requires OnOneList(heads, lists) && h < |lists| && i < |lists[h]|
    ensures OnOneList(heads, lists[h := Without(lists[h], i)])
  {
    RemovedMembers(lists[h], i);
  }

  lemma HoldsInsert(next: seq<nat>, prev: seq<nat>, heads: nat, lists: seq<seq<nat>>, h: nat, i: nat, x: nat)
    requires Holds(next, prev, heads, lists) && h < heads && i <= |lists[h]|
    requires heads <= x < |next| && forall g :: 0 <= g < heads ==> x !in lists[g]
    ensures var a, b := Walk(h, lists[h])[i], Walk(h, lists[h])[i + 1];
            && a < |next| && b < |next| && next[a] == b
            && Holds(next[x := b][a := x], prev[b := x][x := a], heads, lists[h := Inserted(lists[h], i, x)])
  {
    var l, w := lists[h], Walk(h, lists[h]);
    WalkClosed(h, l);
    RingInsert(next, prev, w, i, x);
    OneListInsert(heads, lists, h, i, x);
    var next', prev' := next[x := w[i + 1]][w[i] := x], prev[w[i + 1] := x][x := w[i]];
    var lists' := lists[h := Inserted(l, i, x)];
    forall g | 0 <= g < heads ensures Ring(next', prev', Walk(g, lists'[g])) {
      if g == h {
        assert Inserted(w, i + 1, x) == Walk(h, lists'[h]);
      } else {
        OtherRing(next, prev, next', prev', heads, lists, h, g, w[i], w[i + 1], x);
      }
    }
  }

  lemma HoldsRemove(next: seq<nat>, prev: seq<nat>, heads: nat, lists: seq<seq<nat>>, h: nat, i: nat)
    requires Holds(next, prev, heads, lists) && h < heads && i < |lists[h]|
    ensures var x := lists[h][i];
            && x < |next| && prev[x] < |next| && next[x] < |next|
            && Holds(next[prev[x] := next[x]][x := x], prev[next[x] := prev[x]][x := x], heads, lists[h := Without(lists[h], i)])
  {
    var l, w := lists[h], Walk(h, lists[h]);
    var x := l[i];
    WalkClosed(h, l);
    RingRemove(next, prev, w, i + 1);
    OneListRemove(heads, lists, h, i);
    assert x in l;
    var next', prev' := next[prev[x] := next[x]][x := x], prev[next[x] := prev[x]][x := x];
    var lists' := lists[h := Without(l, i)];
    forall g | 0 <= g < heads ensures Ring(next', prev', Walk(g, lists'[g])) {
      if g == h {
        assert Without(w, i + 1) == Walk(h, lists'[h]);
      } else {
        OtherRing(next, prev, next', prev', heads, lists, h, g, w[i], w[i + 2], x);
      }
    }
  }

  class LinkTable {
    const heads: nat
    const next: array<nat>
    const prev: array<nat>
    ghost var lists: seq<seq<nat>>

    ghost predicate Valid()
      reads this, next, prev
    {
      next != prev && Holds(next[..], prev[..], heads, lists)
    }

    /** link_init on every link. */
    constructor (heads: nat, size: nat)
      requires heads <= size
      ensures Valid() && fresh(next) && fresh(prev)
      ensures this.heads == heads && next.Length == size
      ensures lists == seq(heads, _ => [])
    {
      this.heads := heads;
      next := new nat[size](i => i);
      prev := new nat[size](i => i);
      lists := seq(heads, _ => []);
      new;
      forall h | 0 <= h < heads ensures Ring(next[..], prev[..], Walk(h, lists[h])) {
        assert Walk(h, lists[h]) == [h, h];
      }
    }

    /** list_insert_after: `at` is the link at position i of the walk from head h. */
    method InsertAfter(link: nat, at: nat, ghost h: nat, ghost i: nat)
      requires Valid() && heads <= link < next.Length
      requires forall g :: 0 <= g < heads ==> link !in lists[g]
      requires h < heads && i <= |lists[h]| && at == Walk(h, lists[h])[i]
      modifies this`lists, next, prev
      ensures Valid()
      ensures lists == old(lists)[h := Inserted(old(lists[h]), i, link)]
    {
      HoldsInsert(next[..], prev[..], heads, lists, h, i, link);
      var after := next[at];
      next[link] := after;
      prev[after] := link;
      next[at] := link;
      prev[link] := at;
      lists := lists[h := Inserted(lists[h], i, link)];
      assert next[..] == old(next[..])[link := after][at := link];
      assert prev[..] == old(prev[..])[after := link][link := at];
    }

    /** list_insert_before: `at` is the link at position i + 1 of the walk from head h. */
    method InsertBefore(link: nat, at: nat, ghost h: nat, ghost i: nat)
      requires Valid() && heads <= link < next.Length
      requires forall g :: 0 <= g < heads ==> link !in lists[g]
      requires h < heads && i <= |lists[h]| && at == Walk(h, lists[h])[i + 1]
      modifies this`lists, next, prev
      ensures Valid()
      ensures lists == old(lists)[h := Inserted(old(lists[h]), i, link)]
    {
      HoldsInsert(next[..], prev[..], heads, lists, h, i, link);
      assert Joined(next[..], prev[..], Walk(h, lists[h]), i);
      var before := prev[at];
      next[link] := at;
      prev[at] := link;
      prev[link] := before;
      next[before] := link;
      lists := lists[h := Inserted(lists[h], i, link)];
      assert next[..] == old(next[..])[link := at][before := link];
      assert prev[..] == old(prev[..])[at := link][link := before];
    }

    /** list_remove: link is the one at position i of the list of head h. */
    method Remove(link: nat, ghost h: nat, ghost i: nat)
      requires Valid()
      requires h < heads && i < |lists[h]| && link == lists[h][i]
      modifies this`lists, next, prev
      ensures Valid()
      ensures lists == old(lists)[h := Without(old(lists[h]), i)]
      ensures link < next.Length && next[link] == link && prev[link] == link
    {
      HoldsRemove(next[..], prev[..], heads, lists, h, i);
      var before, after := prev[link], next[link];
      next[before] := after;
      prev[after] := before;
      next[link] := link;
      prev[link] := link;
      lists := lists[h := Without(lists[h], i)];
      assert next[..] == old(next[..])[before := after][link := link];
      assert prev[..] == old(prev[..])[after := before][link := link];
    }

    /** The first link of the list of head h, or h itself: list->next. */
    method First(h: nat) returns (link: nat)
      requires Valid() && h < heads
      ensures link == if lists[h] == [] then h else lists[h][0]
      ensures link == h <==> lists[h] == []
    {
      assert lists[h] != [] ==> lists[h][0] in lists[h];
      assert Joined(next[..], prev[..], Walk(h, lists[h]), 0);
      link := next[h];
    }

    /** list_empty. */
    method Empty(h: nat) returns (empty: bool)
      requires Valid() && h < heads
      ensures empty <==> lists[h] == []
    {
      ghost var w := Walk(h, lists[h]);
      assert Joined(next[..], prev[..], w, 0);
      assert Joined(next[..], prev[..], w, |w| - 2);
      assert lists[h] != [] ==> w[1] == lists[h][0] && lists[h][0] in lists[h];
      empty := prev[h] == h && next[h] == h;
    }
  }
}
