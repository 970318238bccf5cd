/**
  The observable state of an ordered set is a duplicate-free sequence of its members,
  front to back. This module defines that sequence's vocabulary (positions, insertion,
  deletion, relocation, first-occurrence deduplication) and proves the properties the
  set's operations promise about it.
 */
module Seqs {

  /** No value occurs twice in `s`. */
  predicate Distinct<T(==)>(s: seq<T>) {
    forall i, j :: 0 <= i < j < |s| ==> s[i] != s[j]
  }

  /** The values occurring in `s`. */
  ghost function Elems<T>(s: seq<T>): set<T> {
    set x | x in s
  }

  /** The position of the first occurrence of `x` in `s`. */
  function IndexOf<T(==)>(s: seq<T>, x: T): (i: nat)
    requires x in s
    ensures i < |s| && s[i] == x && x !in s[..i]
  {
    if s[0] == x then 0
    else
      var i := IndexOf(s[1..], x) + 1;
      assert s[..i] == [s[0]] + s[1..][..i - 1];
      i
  }

  /** `s` with `x` placed at position `k`; everything at or after `k` shifts back by one. */
  function InsertAt<T>(s: seq<T>, k: nat, x: T): (r: seq<T>)
    requires k <= |s|
    ensures |r| == |s| + 1 && r[k] == x
    ensures forall i :: 0 <= i < k ==> r[i] == s[i]
    ensures forall i :: k < i < |r| ==> r[i] == s[i - 1]
  {
    s[..k] + [x] + s[k..]
  }

  /** `s` without the element at position `k`; everything after `k` shifts forward by one. */
  function RemoveAt<T>(s: seq<T>, k: nat): (r: seq<T>)
    requires k < |s|
    ensures |r| == |s| - 1
    ensures forall i :: 0 <= i < k ==> r[i] == s[i]
    ensures forall i :: k <= i < |r| ==> r[i] == s[i + 1]
  {
    s[..k] + s[k + 1..]
  }

  /** Where the element at position `i` of `Splice(s, from, to)` was in `s`. */
  function SpliceSource(from: nat, to: nat, i: nat): nat {
    if i == to then from
    else if i < to then (if i < from then i else i + 1)
    else (if i <= from then i - 1 else i)
  }

  /** `s` with its element at position `from` taken out and put back in at position `to`. */
  function Splice<T>(s: seq<T>, from: nat, to: nat): (r: seq<T>)
    requires from < |s| && to < |s|
    ensures |r| == |s|
    ensures forall i :: 0 <= i < |r| ==> SpliceSource(from, to, i) < |s| && r[i] == s[SpliceSource(from, to, i)]
  {
    InsertAt(RemoveAt(s, from), to, s[from])
  }

  /** `s` with every occurrence of `v` deleted and the rest in their original order. */
  function Without<T(==)>(s: seq<T>, v: T): (r: seq<T>)
    ensures forall i :: 0 <= i < |r| ==> r[i] in s && r[i] != v
    ensures forall i :: 0 <= i < |s| && s[i] != v ==> s[i] in r
    ensures |r| <= |s|
  {
    if s == [] then []
    else if s[0] == v then Without(s[1..], v)
    else [s[0]] + Without(s[1..], v)
  }

  /** `s` with `v` placed immediately after (or before) the member `mark`. */
  function Placed<T(==)>(s: seq<T>, v: T, mark: T, after: bool): seq<T>
    requires mark in s
  {
    InsertAt(s, IndexOf(s, mark) + (if after then 1 else 0), v)
  }

  /**
    `s` with the member `v` relocated immediately after (or before) the member `mark`;
    unchanged when `v` is not a member or is `mark` itself.
   */
  function Moved<T(==)>(s: seq<T>, v: T, mark: T, after: bool): seq<T>
    requires mark in s
  {
    if v !in s || v == mark then s
    else Placed(Without(s, v), v, mark, after)
  }

  /** `xs` with every occurrence after the first of each value dropped. */
  function Dedup<T(==)>(xs: seq<T>): seq<T> {
    if xs == [] then []
    else
      var d := Dedup(xs[..|xs| - 1]);
      if xs[|xs| - 1] in d then d else d + [xs[|xs| - 1]]
  }

  /** `s` read back to front. */
  function Backwards<T>(s: seq<T>): seq<T> {
    seq(|s|, i requires 0 <= i < |s| => s[|s| - 1 - i])
  }

  /** The values that removing the last element over and over yields, in the order they come out. */
  function PopAll<T>(s: seq<T>): seq<T> {
    if s == [] then [] else [s[|s| - 1]] + PopAll(s[..|s| - 1])
  }

  /** The values that removing the first element over and over yields, in the order they come out. */
  function ShiftAll<T>(s: seq<T>): seq<T> {
    if s == [] then [] else [s[0]] + ShiftAll(s[1..])
  }

  // ---------------------------------------------------------------------------
  // Positions in a duplicate-free sequence

  /** In a duplicate-free sequence, the element at `k` is found at `k`. */
  lemma IndexOfAt<T>(s: seq<T>, k: nat)
    requires Distinct(s) && k < |s|
    ensures IndexOf(s, s[k]) == k
  {
  }

  /** Inserting a new value keeps a sequence duplicate free and adds exactly that value. */
  lemma InsertAtDistinct<T>(s: seq<T>, k: nat, x: T)
    requires Distinct(s) && x !in s && k <= |s|
    ensures Distinct(InsertAt(s, k, x))
    ensures forall y :: y in InsertAt(s, k, x) <==> y in s || y == x
  {
    var r := InsertAt(s, k, x);
    forall y | y in s ensures y in r {
      var i :| 0 <= i < |s| && s[i] == y;
      if i < k { assert r[i] == y; } else { assert r[i + 1] == y; }
    }
  }

  /** Removing a position keeps a sequence duplicate free and loses exactly the value there. */
  lemma RemoveAtDistinct<T>(s: seq<T>, k: nat)
    requires Distinct(s) && k < |s|
    ensures Distinct(RemoveAt(s, k))
    ensures forall y :: y in RemoveAt(s, k) <==> y in s && y != s[k]
  {
    var r := RemoveAt(s, k);
    forall y | y in s && y != s[k] ensures y in r {
      var i :| 0 <= i < |s| && s[i] == y;
      if i < k { assert r[i] == y; } else { assert r[i - 1] == y; }
    }
  }

  /** Taking out the element at `k` keeps every other element findable, one place earlier if it was behind `k`. */
  lemma IndexOfRemoveAt<T>(s: seq<T>, k: nat, j: nat)
    requires Distinct(s) && k < |s| && j < |s| && j != k
    ensures s[j] in RemoveAt(s, k)
    ensures IndexOf(RemoveAt(s, k), s[j]) == if j < k then j else j - 1
  {
    var r := RemoveAt(s, k);
    RemoveAtDistinct(s, k);
    var i := if j < k then j else j - 1;
    assert r[i] == s[j];
    IndexOfAt(r, i);
  }

  /** Removing what was just inserted gives the sequence back. */
  lemma RemoveInsertAt<T>(s: seq<T>, k: nat, x: T)
    requires k <= |s|
    ensures RemoveAt(InsertAt(s, k, x), k) == s
  {
    assert RemoveAt(InsertAt(s, k, x), k) == s;
  }

  /** Taking an element out and putting it back where it was changes nothing. */
  lemma SpliceInPlace<T>(s: seq<T>, k: nat)
    requires k < |s|
    ensures Splice(s, k, k) == s
  {
    assert Splice(s, k, k) == s;
  }

  // ---------------------------------------------------------------------------
  // Deletion by value

  /** Deleting a value that does not occur changes nothing. */
  lemma {:induction false} WithoutAbsent<T>(s: seq<T>, v: T)
    requires v !in s
    ensures Without(s, v) == s
  {
    if s != [] {
      WithoutAbsent(s[1..], v);
      assert s == [s[0]] + s[1..];
    }
  }

  /**
    In a duplicate-free sequence, deleting the value at position `k` is deleting position
    `k`: the remaining members keep their order.
   */
  lemma {:induction false} WithoutIsRemoveAt<T>(s: seq<T>, k: nat)
    requires Distinct(s) && k < |s|
    ensures Without(s, s[k]) == RemoveAt(s, k)
  {
    var v := s[k];
    if k == 0 {
      assert v !in s[1..];
      WithoutAbsent(s[1..], v);
    } else {
      assert Distinct(s[1..]);
      assert s[1..][k - 1] == v;
      WithoutIsRemoveAt(s[1..], k - 1);
      assert [s[0]] + RemoveAt(s[1..], k - 1) == RemoveAt(s, k);
    }
  }

  /** Deleting a value from a duplicate-free sequence removes exactly one element when it is a member. */
  lemma WithoutSpec<T>(s: seq<T>, v: T)
    requires Distinct(s)
    ensures Distinct(Without(s, v))
    ensures |Without(s, v)| == if v in s then |s| - 1 else |s|
    ensures v in s ==> Without(s, v) == RemoveAt(s, IndexOf(s, v))
  {
    if v in s {
      var k := IndexOf(s, v);
      WithoutIsRemoveAt(s, k);
      RemoveAtDistinct(s, k);
    } else {
      WithoutAbsent(s, v);
    }
  }

  // ---------------------------------------------------------------------------
  // Insertion next to a mark

  /**
    Placing a non-member next to a member of a duplicate-free sequence keeps it duplicate
    free, adds exactly that value, puts it right after (or right before) the mark, and
    leaves every other member in its original relative order.
   */
  lemma PlacedSpec<T>(s: seq<T>, v: T, mark: T, after: bool)
    requires Distinct(s) && mark in s && v !in s
    ensures var r := Placed(s, v, mark, after);
      && Distinct(r)
      && |r| == |s| + 1
      && (forall x :: x in r <==> x in s || x == v)
      && mark in r && v in r
      && (after ==> IndexOf(r, v) == IndexOf(r, mark) + 1)
      && (!after ==> IndexOf(r, mark) == IndexOf(r, v) + 1)
      && Without(r, v) == s
  {
    var km := IndexOf(s, mark);
    var k := km + (if after then 1 else 0);
    var r := InsertAt(s, k, v);
    InsertAtDistinct(s, k, v);
    IndexOfAt(r, k);
    if after {
      assert r[km] == mark;
      IndexOfAt(r, km);
    } else {
      assert r[km + 1] == mark;
      IndexOfAt(r, km + 1);
    }
    WithoutIsRemoveAt(r, k);
    RemoveInsertAt(s, k, v);
  }

  /** Insertion next to a mark, stated on positions. */
  lemma PlacedAt<T>(s: seq<T>, km: nat, v: T, after: bool)
    requires Distinct(s) && km < |s|
    ensures Placed(s, v, s[km], after) == InsertAt(s, km + (if after then 1 else 0), v)
  {
    IndexOfAt(s, km);
  }

  // ---------------------------------------------------------------------------
  // Relocation next to a mark

  /**
    Relocating a value in a duplicate-free sequence keeps it duplicate free, keeps its
    members and length, keeps the relative order of every other member, and puts a moved
    value right after (or right before) the mark.
   */
  lemma MovedSpec<T>(s: seq<T>, v: T, mark: T, after: bool)
    requires Distinct(s) && mark in s
    ensures var r := Moved(s, v, mark, after);
      && Distinct(r)
      && |r| == |s|
      && (forall x :: x in r <==> x in s)
      && Without(r, v) == Without(s, v)
      && (v in s && v != mark ==>
            && mark in r && v in r
            && (after ==> IndexOf(r, v) == IndexOf(r, mark) + 1)
            && (!after ==> IndexOf(r, mark) == IndexOf(r, v) + 1))
  {
    if v in s && v != mark {
      var t := Without(s, v);
      WithoutSpec(s, v);
      PlacedSpec(t, v, mark, after);
    }
  }

  /** Where relocation puts the element found at `kv` when the mark is found at `km`. */
  function MoveTarget(kv: nat, km: nat, after: bool): nat {
    var at := km + (if after then 1 else 0);
    if at > kv then at - 1 else at
  }

  /** Relocation by value is a splice of positions. */
  lemma MovedIsSplice<T>(s: seq<T>, kv: nat, km: nat, after: bool)
    requires Distinct(s) && kv < |s| && km < |s| && kv != km
    ensures MoveTarget(kv, km, after) < |s|
    ensures Moved(s, s[kv], s[km], after) == Splice(s, kv, MoveTarget(kv, km, after))
  {
    var v, mark := s[kv], s[km];
    var t := RemoveAt(s, kv);
    var to := MoveTarget(kv, km, after);
    assert Without(s, v) == t by {
      WithoutIsRemoveAt(s, kv);
    }
    assert mark in t && IndexOf(t, mark) + (if after then 1 else 0) == to by {
      IndexOfRemoveAt(s, kv, km);
    }
    MovedAt(s, v, mark, after, t, to);
  }

  /** Relocation inserts the member into what is left once it is deleted. */
  lemma MovedAt<T>(s: seq<T>, v: T, mark: T, after: bool, t: seq<T>, to: nat)
    requires v in s && v != mark && mark in t && Without(s, v) == t
    requires IndexOf(t, mark) + (if after then 1 else 0) == to
    ensures mark in s && to <= |t| && Moved(s, v, mark, after) == InsertAt(t, to, v)
  {
  }

  // ---------------------------------------------------------------------------
  // Construction from a list of initial values

  /** Appending an element does not move the first occurrence of a value already present. */
  lemma {:induction false} IndexOfPrefix<T>(p: seq<T>, x: T, y: T)
    requires y in p
    ensures IndexOf(p + [x], y) == IndexOf(p, y)
  {
    if p[0] != y {
      assert (p + [x])[1..] == p[1..] + [x];
      IndexOfPrefix(p[1..], x, y);
    }
  }

  /**
    Deduplication keeps exactly the values of `xs`, each once, in the order of their
    first occurrences.
   */
  lemma {:induction false} DedupSpec<T>(xs: seq<T>)
    ensures Distinct(Dedup(xs))
    ensures forall x :: x in Dedup(xs) ==> x in xs
    ensures forall x :: x in xs ==> x in Dedup(xs)
    ensures forall i, j :: 0 <= i < j < |Dedup(xs)| ==> IndexOf(xs, Dedup(xs)[i]) < IndexOf(xs, Dedup(xs)[j])
  {
    if xs != [] {
      var p, last := xs[..|xs| - 1], xs[|xs| - 1];
      assert xs == p + [last];
      DedupSpec(p);
      var d := Dedup(p);
      assert forall y :: y in d ==> y in p;
      forall y | y in d ensures IndexOf(xs, y) == IndexOf(p, y) < |p| {
        IndexOfPrefix(p, last, y);
      }
      if last !in d {
        assert last !in p;
        assert IndexOf(xs, last) == |p|;
      }
      var r := Dedup(xs);
      assert r == if last in d then d else d + [last];
      forall i, j | 0 <= i < j < |r| ensures IndexOf(xs, r[i]) < IndexOf(xs, r[j]) {
        assert r[i] == d[i] && d[i] in d;
        if j < |d| {
          assert r[j] == d[j] && d[j] in d;
        } else {
          assert r[j] == last && last !in d;
        }
      }
    }
  }

  /** Values that already occurred earlier are dropped: repeating them changes nothing. */
  lemma {:induction false} DedupRepeats<T>(xs: seq<T>, ys: seq<T>)
    requires forall i :: 0 <= i < |ys| ==> ys[i] in xs
    ensures Dedup(xs + ys) == Dedup(xs)
    decreases |ys|
  {
    if ys != [] {
      var p := ys[..|ys| - 1];
      var last := ys[|ys| - 1];
      DedupRepeats(xs, p);
      assert (xs + ys)[..|xs + ys| - 1] == xs + p;
      assert (xs + ys)[|xs + ys| - 1] == last;
      assert last in xs + p;
      DedupSpec(xs + p);
      assert last in Dedup(xs + p);
    } else {
      assert xs + ys == xs;
    }
  }

  /** A list without duplicates is kept as it is. */
  lemma {:induction false} DedupOfDistinct<T>(xs: seq<T>)
    requires Distinct(xs)
    ensures Dedup(xs) == xs
  {
    if xs != [] {
      var p := xs[..|xs| - 1];
      assert Distinct(p);
      DedupOfDistinct(p);
      assert xs[|xs| - 1] !in p;
      assert p + [xs[|xs| - 1]] == xs;
    }
  }

  // ---------------------------------------------------------------------------
  // Size and draining

  /** A duplicate-free sequence has as many distinct values as elements. */
  lemma {:induction false} DistinctCard<T>(s: seq<T>)
    requires Distinct(s)
    ensures |Elems(s)| == |s|
  {
    if s != [] {
      assert Distinct(s[1..]);
      DistinctCard(s[1..]);
      assert Elems(s) == {s[0]} + Elems(s[1..]);
      assert s[0] !in Elems(s[1..]);
    }
  }

  /** Removing the last element over and over yields the values back to front. */
  lemma {:induction false} PopAllIsBackwards<T>(s: seq<T>)
    ensures PopAll(s) == Backwards(s)
  {
    if s != [] {
      var p := s[..|s| - 1];
      PopAllIsBackwards(p);
      var r := [s[|s| - 1]] + Backwards(p);
      forall i | 0 <= i < |s| ensures r[i] == Backwards(s)[i] {
        if i > 0 {
          assert r[i] == Backwards(p)[i - 1] == p[|p| - i];
        }
      }
      assert r == Backwards(s);
    }
  }

  /** Removing the first element over and over yields the values front to back. */
  lemma {:induction false} ShiftAllIsInOrder<T>(s: seq<T>)
    ensures ShiftAll(s) == s
  {
    if s != [] {
      ShiftAllIsInOrder(s[1..]);
    }
  }
}
