/**
  The ordered set itself: a linked list holding the members in order, paired with a map
  from each member to the handle of the list node that holds it, so that membership is a
  map lookup and removal does not search the list. Its observable state is `Elements()`,
  the members front to back, which never holds a value twice.
 */
module OrdSet {
  import opened Wrappers
  import opened Seqs
  import opened LinkedList

  /** The one error the set reports: the reference value given to Insert or Move is not a member. */
  datatype Error = ErrMarkNotFound

  // ---------------------------------------------------------------------------
  // The index from members to node handles

  /** `mapping` sends each value of `vals` to the handle at the same position of `ids`, and has no other keys. */
  ghost predicate Indexed<T>(mapping: map<T, nat>, ids: seq<nat>, vals: seq<T>) {
    && |ids| == |vals|
    && mapping.Keys == Elems(vals)
    && (forall i :: 0 <= i < |vals| ==> vals[i] in mapping && mapping[vals[i]] == ids[i])
  }

  /** A member's handle sits at the member's own position in the list of handles. */
  lemma IndexedAt<T>(mapping: map<T, nat>, ids: seq<nat>, vals: seq<T>, v: T) returns (k: nat)
    requires Indexed(mapping, ids, vals) && v in mapping
    ensures k < |vals| && vals[k] == v && ids[k] == mapping[v]
  {
    assert v in Elems(vals);
    k := IndexOf(vals, v);
  }

  /** Adding a new member's node to the list and its handle to the map keeps the index exact. */
  lemma IndexedInsert<T>(mapping: map<T, nat>, ids: seq<nat>, vals: seq<T>, k: nat, e: nat, v: T)
    requires Indexed(mapping, ids, vals) && Distinct(vals) && v !in vals && k <= |vals|
    ensures Indexed(mapping[v := e], InsertAt(ids, k, e), InsertAt(vals, k, v))
  {
    var m, ids', vals' := mapping[v := e], InsertAt(ids, k, e), InsertAt(vals, k, v);
    InsertAtDistinct(vals, k, v);
    assert m.Keys == Elems(vals');
    forall i | 0 <= i < |vals'| ensures vals'[i] in m && m[vals'[i]] == ids'[i] {
      if i < k {
        assert vals'[i] == vals[i] != v;
      } else if i > k {
        assert vals'[i] == vals[i - 1] != v;
      }
    }
  }

  /** Dropping a member's node from the list and its key from the map keeps the index exact. */
  lemma IndexedRemove<T>(mapping: map<T, nat>, ids: seq<nat>, vals: seq<T>, k: nat)
    requires Indexed(mapping, ids, vals) && Distinct(vals) && k < |vals|
    ensures Indexed(mapping - {vals[k]}, RemoveAt(ids, k), RemoveAt(vals, k))
  {
    var m, ids', vals' := mapping - {vals[k]}, RemoveAt(ids, k), RemoveAt(vals, k);
    RemoveAtDistinct(vals, k);
    assert m.Keys == Elems(vals');
    forall i | 0 <= i < |vals'| ensures vals'[i] in m && m[vals'[i]] == ids'[i] {
      if i < k {
        assert vals'[i] == vals[i] != vals[k];
      } else {
        assert vals'[i] == vals[i + 1] != vals[k];
      }
    }
  }

  /** Placing a new member next to the mark found at `km` keeps the index exact and is `Placed`. */
  lemma IndexedPlace<T>(mapping: map<T, nat>, ids: seq<nat>, vals: seq<T>, km: nat, after: bool, e: nat, v: T,
                        ids': seq<nat>, vals': seq<T>)
    requires Indexed(mapping, ids, vals) && Distinct(vals) && km < |vals| && v !in mapping
    requires var k := km + (if after then 1 else 0);
      ids' == InsertAt(ids, k, e) && vals' == InsertAt(vals, k, v)
    ensures vals' == Placed(vals, v, vals[km], after)
    ensures Distinct(vals') && Indexed(mapping[v := e], ids', vals')
  {
    var k := km + (if after then 1 else 0);
    assert v !in vals by {
      assert v !in Elems(vals);
    }
    IndexedInsert(mapping, ids, vals, k, e, v);
    InsertAtDistinct(vals, k, v);
    PlacedAt(vals, km, v, after);
  }

  /** Taking out the member at `k` keeps the index exact and is `Without`. */
  lemma IndexedWithout<T>(mapping: map<T, nat>, ids: seq<nat>, vals: seq<T>, k: nat, ids': seq<nat>, vals': seq<T>)
    requires Indexed(mapping, ids, vals) && Distinct(vals) && k < |vals|
    requires ids' == RemoveAt(ids, k) && vals' == RemoveAt(vals, k)
    ensures vals' == Without(vals, vals[k])
    ensures Distinct(vals') && Indexed(mapping - {vals[k]}, ids', vals')
  {
    IndexedRemove(mapping, ids, vals, k);
    RemoveAtDistinct(vals, k);
    WithoutIsRemoveAt(vals, k);
  }

  /** Relinking a node elsewhere in the list leaves the map exact without touching it. */
  lemma IndexedSplice<T>(mapping: map<T, nat>, ids: seq<nat>, vals: seq<T>, from: nat, to: nat)
    requires Indexed(mapping, ids, vals) && Distinct(vals) && from < |vals| && to < |vals|
    ensures Indexed(mapping, Splice(ids, from, to), Splice(vals, from, to))
  {
    var vals' := Splice(vals, from, to);
    var t := RemoveAt(vals, from);
    RemoveAtDistinct(vals, from);
    InsertAtDistinct(t, to, vals[from]);
    assert mapping.Keys == Elems(vals');
  }

  /**
    Relocating the member at `kv` next to the member at `km` splices both the handles and
    the values, and keeps them duplicate free and the map exact.
   */
  lemma IndexedMove<T>(mapping: map<T, nat>, ids: seq<nat>, vals: seq<T>, kv: nat, km: nat, after: bool,
                       ids': seq<nat>, vals': seq<T>)
    requires Indexed(mapping, ids, vals) && Distinct(vals) && kv < |vals| && km < |vals|
    requires kv == km ==> ids' == ids && vals' == vals
    requires kv != km ==>
      var to := MoveTarget(kv, km, after);
      ids' == Splice(ids, kv, to) && vals' == Splice(vals, kv, to)
    ensures vals' == Moved(vals, vals[kv], vals[km], after)
    ensures Distinct(vals') && Indexed(mapping, ids', vals')
  {
    if kv != km {
      MovedIsSplice(vals, kv, km, after);
      MovedSpec(vals, vals[kv], vals[km], after);
      IndexedSplice(mapping, ids, vals, kv, MoveTarget(kv, km, after));
    }
  }

  // ---------------------------------------------------------------------------
  // Traversal

  /** The first error `visit` reports over `s` from position `from` on; None when every call succeeds. */
  function FirstErrorFrom<T, E>(s: seq<T>, visit: (int, T) -> Option<E>, from: nat): Option<E>
    decreases |s| - from
  {
    if from >= |s| then None
    else if visit(from, s[from]).Some? then visit(from, s[from])
    else FirstErrorFrom(s, visit, from + 1)
  }

  /** The first error `visit` reports over `s`, front to back. */
  function FirstError<T, E>(s: seq<T>, visit: (int, T) -> Option<E>): Option<E> {
    FirstErrorFrom(s, visit, 0)
  }

  /**
    The first error is the one the first failing call reports, and every call before it
    succeeds; there is no error exactly when every call succeeds.
   */
  lemma {:induction false} FirstErrorSpec<T, E>(s: seq<T>, visit: (int, T) -> Option<E>, from: nat)
    ensures FirstErrorFrom(s, visit, from).None? ==> forall i :: from <= i < |s| ==> visit(i, s[i]).None?
    ensures (forall i :: from <= i < |s| ==> visit(i, s[i]).None?) ==> FirstErrorFrom(s, visit, from).None?
    ensures FirstErrorFrom(s, visit, from).Some? ==>
      exists k :: from <= k < |s| && FirstErrorFrom(s, visit, from) == visit(k, s[k]) &&
        forall i :: from <= i < k ==> visit(i, s[i]).None?
    decreases |s| - from
  {
    if from < |s| {
      FirstErrorSpec(s, visit, from + 1);
      if visit(from, s[from]).Some? {
        assert FirstErrorFrom(s, visit, from) == visit(from, s[from]);
      }
    }
  }

  // ---------------------------------------------------------------------------
  // The set

  class OrderedSet<T(==, 0)> {
    /** The members in order; a node handle stands in for Go's `*list.Element`. */
    const list: List<T>
    /** From each member to the handle of the node holding it. */
    var mapping: map<T, nat>

    /** The list is well formed, holds no value twice, and the map indexes exactly its nodes. */
    ghost predicate Valid()
      reads this, list
    {
      && list.Valid()
      && Distinct(list.Values)
      && Indexed(mapping, list.Ids, list.Values)
    }

    /** The members, front to back. */
    ghost function Elements(): seq<T>
      reads this, list
    {
      list.Values
    }

    /** A set holding `elems` in order with later duplicates dropped (Go's `New`). */
    constructor (elems: seq<T>)
      ensures Valid() && fresh(list)
      ensures Elements() == Dedup(elems)
    {
      list := new List<T>();
      mapping := map[];
      new;
      assert Elems(list.Values) == {};
      var i := 0;
      while i < |elems|
        invariant i <= |elems|
        invariant Valid() && fresh(list)
        invariant Elements() == Dedup(elems[..i])
      {
        var _ := Append(elems[i]);
        assert elems[..i + 1][..i] == elems[..i];
        i := i + 1;
      }
      assert elems[..|elems|] == elems;
    }

    /** The number of members. */
    function Len(): (n: int)
      requires Valid()
      reads this, list
      ensures n == |Elements()|
    {
      list.len
    }

    /** Whether `v` is a member. */
    function Has(v: T): (b: bool)
      requires Valid()
      reads this, list
      ensures b <==> v in Elements()
    {
      v in mapping
    }

    /** The first member. */
    function Front(): (v: T)
      requires Valid() && Len() > 0
      reads this, list
      ensures v == Elements()[0]
    {
      list.ValueOf(list.front.id, 0)
    }

    /** The last member. */
    function Back(): (v: T)
      requires Valid() && Len() > 0
      reads this, list
      ensures v == Elements()[|Elements()| - 1]
    {
      list.ValueOf(list.back.id, |list.Ids| - 1)
    }

    /** The map has exactly one entry per member. */
    lemma MappingSize()
      requires Valid()
      ensures |mapping| == Len()
    {
      DistinctCard(list.Values);
      assert |mapping.Keys| == |mapping|;
    }

    /** Pushes `v` to the back unless it is already a member, and says whether it was added. */
    method Append(v: T) returns (added: bool)
      requires Valid()
      modifies this, list
      ensures Valid()
      ensures added <==> v !in old(Elements())
      ensures Elements() == if added then old(Elements()) + [v] else old(Elements())
    {
      if Has(v) {
        return false;
      }
      ghost var ids0, vals0 := list.Ids, list.Values;
      var e := list.PushBack(v);
      IndexedInsert(mapping, ids0, vals0, |vals0|, e, v);
      InsertAtDistinct(vals0, |vals0|, v);
      assert InsertAt(ids0, |ids0|, e) == ids0 + [e];
      assert InsertAt(vals0, |vals0|, v) == vals0 + [v];
      mapping := mapping[v := e];
      added := true;
    }

    /** Pushes `v` to the front unless it is already a member, and says whether it was added. */
    method Prepend(v: T) returns (added: bool)
      requires Valid()
      modifies this, list
      ensures Valid()
      ensures added <==> v !in old(Elements())
      ensures Elements() == if added then [v] + old(Elements()) else old(Elements())
    {
      if Has(v) {
        return false;
      }
      ghost var ids0, vals0 := list.Ids, list.Values;
      var e := list.PushFront(v);
      IndexedInsert(mapping, ids0, vals0, 0, e, v);
      InsertAtDistinct(vals0, 0, v);
      assert InsertAt(ids0, 0, e) == [e] + ids0;
      assert InsertAt(vals0, 0, v) == [v] + vals0;
      mapping := mapping[v := e];
      added := true;
    }

    /**
      Takes the last member out and returns it with `true`; on an empty set returns `false`
      and changes nothing.
     */
    method Pop() returns (v: T, ok: bool)
      requires Valid()
      modifies this, list
      ensures Valid()
      ensures ok <==> old(Elements()) != []
      ensures ok ==> v == old(Elements())[|old(Elements())| - 1]
      ensures Elements() == if ok then old(Elements())[..|old(Elements())| - 1] else old(Elements())
    {
      v, ok := *, false;
      if Len() > 0 {
        ghost var ids0, vals0 := list.Ids, list.Values;
        ghost var k := |ids0| - 1;
        var elem := list.back.id;
        v := list.Remove(elem, k);
        ok := true;
        IndexedRemove(mapping, ids0, vals0, k);
        RemoveAtDistinct(vals0, k);
        assert RemoveAt(vals0, k) == vals0[..k];
        mapping := mapping - {v};
      }
    }

    /**
      Takes the first member out and returns it with `true`; on an empty set returns `false`
      and changes nothing.
     */
    method Shift() returns (v: T, ok: bool)
      requires Valid()
      modifies this, list
      ensures Valid()
      ensures ok <==> old(Elements()) != []
      ensures ok ==> v == old(Elements())[0]
      ensures Elements() == if ok then old(Elements())[1..] else old(Elements())
    {
      v, ok := *, false;
      if Len() > 0 {
        ghost var ids0, vals0 := list.Ids, list.Values;
        var elem := list.front.id;
        v := list.Remove(elem, 0);
        ok := true;
        IndexedRemove(mapping, ids0, vals0, 0);
        RemoveAtDistinct(vals0, 0);
        assert RemoveAt(vals0, 0) == vals0[1..];
        mapping := mapping - {v};
      }
    }

    /**
      Places `v` right after `mark` (or right before it when `after` is false). Fails with
      ErrMarkNotFound when `mark` is not a member, which is checked first; does nothing when
      `v` is already a member.
     */
    method Insert(v: T, mark: T, after: bool) returns (added: bool, err: Option<Error>)
      requires Valid()
      modifies this, list
      ensures Valid()
      ensures mark !in old(Elements()) ==> !added && err == Some(ErrMarkNotFound)
      ensures mark in old(Elements()) ==> err == None && (added <==> v !in old(Elements()))
      ensures Elements() == if added then Placed(old(Elements()), v, mark, after) else old(Elements())
    {
      if !Has(mark) {
        return false, Some(ErrMarkNotFound);
      } else if Has(v) {
        return false, None;
      }
      var target := mapping[mark];
      ghost var ids0, vals0 := list.Ids, list.Values;
      ghost var km := IndexedAt(mapping, ids0, vals0, mark);
      var e;
      if after {
        e := list.InsertAfter(v, target, km);
      } else {
        e := list.InsertBefore(v, target, km);
      }
      IndexedPlace(mapping, ids0, vals0, km, after, e, v, list.Ids, list.Values);
      mapping := mapping[v := e];
      added, err := true, None;
    }

    /**
      Relocates the member `v` right after `mark` (or right before it when `after` is
      false). Fails with ErrMarkNotFound when `mark` is not a member; does nothing when `v`
      is not a member or is `mark` itself.
     */
    method Move(v: T, mark: T, after: bool) returns (err: Option<Error>)
      requires Valid()
      modifies this, list
      ensures Valid()
      ensures mark !in old(Elements()) ==> err == Some(ErrMarkNotFound) && Elements() == old(Elements())
      ensures mark in old(Elements()) ==> err == None && Elements() == Moved(old(Elements()), v, mark, after)
    {
      if !Has(mark) {
        return Some(ErrMarkNotFound);
      }
      if v in mapping {
        var elem, target := mapping[v], mapping[mark];
        ghost var ids0, vals0 := list.Ids, list.Values;
        ghost var kv := IndexedAt(mapping, ids0, vals0, v);
        ghost var km := IndexedAt(mapping, ids0, vals0, mark);
        assert elem == target <==> kv == km by {
          assert Distinct(ids0);
        }
        if after {
          list.MoveAfter(elem, target, kv, km);
        } else {
          list.MoveBefore(elem, target, kv, km);
        }
        IndexedMove(mapping, ids0, vals0, kv, km, after, list.Ids, list.Values);
      }
      err := None;
    }

    /** Takes `v` out if it is a member, keeping the order of the rest, and says whether it was there. */
    method Remove(v: T) returns (removed: bool)
      requires Valid()
      modifies this, list
      ensures Valid()
      ensures removed <==> v in old(Elements())
      ensures Elements() == Without(old(Elements()), v)
    {
      if v in mapping {
        var elem := mapping[v];
        ghost var ids0, vals0 := list.Ids, list.Values;
        ghost var k := IndexedAt(mapping, ids0, vals0, v);
        var _ := list.Remove(elem, k);
        IndexedWithout(mapping, ids0, vals0, k, list.Ids, list.Values);
        mapping := mapping - {v};
        return true;
      }
      WithoutAbsent(list.Values, v);
      return false;
    }

    /**
      Calls `visit` with each position and member, front to back, stopping at the first call
      that reports an error and returning that error; returns None when no call does.
     */
    method Range<E>(visit: (int, T) -> Option<E>) returns (err: Option<E>)
      requires Valid()
      ensures err == FirstError(Elements(), visit)
    {
      var i := 0;
      var elem := list.front;
      while elem.Ptr?
        invariant i <= |list.Ids|
        invariant elem == if i < |list.Ids| then Ptr(list.Ids[i]) else Nil
        invariant FirstErrorFrom(Elements(), visit, i) == FirstError(Elements(), visit)
        decreases |list.Ids| - i
      {
        err := visit(i, list.ValueOf(elem.id, i));
        if err.Some? {
          return;
        }
        elem := list.Next(elem.id, i);
        i := i + 1;
      }
      return None;
    }

    /**
      Calls `visit` with each member back to front, the position counting from 0 at the
      back, stopping at the first call that reports an error and returning that error.
     */
    method RangeReverse<E>(visit: (int, T) -> Option<E>) returns (err: Option<E>)
      requires Valid()
      ensures err == FirstError(Backwards(Elements()), visit)
    {
      ghost var n := |list.Ids|;
      ghost var rev := Backwards(Elements());
      ghost var k: int := n - 1;
      var i := 0;
      var elem := list.back;
      while elem.Ptr?
        invariant 0 <= i <= n && k == n - 1 - i
        invariant elem == if k >= 0 then Ptr(list.Ids[k]) else Nil
        invariant FirstErrorFrom(rev, visit, i) == FirstError(rev, visit)
        decreases k
      {
        assert rev[i] == list.Values[k];
        err := visit(i, list.ValueOf(elem.id, k));
        if err.Some? {
          return;
        }
        elem := list.Prev(elem.id, k);
        i, k := i + 1, k - 1;
      }
      return None;
    }

    /** A new array holding the members front to back. */
    method Slice() returns (slice: array<T>)
      requires Valid()
      ensures fresh(slice) && slice[..] == Elements()
    {
      slice := new T[list.len];
      var i := 0;
      var elem := list.front;
      while elem.Ptr?
        invariant i <= |list.Ids|
        invariant elem == if i < |list.Ids| then Ptr(list.Ids[i]) else Nil
        invariant forall j :: 0 <= j < i ==> slice[j] == Elements()[j]
        decreases |list.Ids| - i
      {
        slice[i] := list.ValueOf(elem.id, i);
        elem := list.Next(elem.id, i);
        i := i + 1;
      }
    }
  }
}
