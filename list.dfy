/**
  A doubly linked list of values, standing in for Go's `container/list` under the ordered
  set. Nodes live in an arena (`nodes`, keyed by a node handle) instead of the heap; a
  handle plays the part of a `*list.Element`. The ghost fields `Ids` and `Values` give the
  handles and the values front to back.
 */
module LinkedList {
  import opened Seqs

  /** A link to a neighbouring node, or none at an end of the list. */
  datatype Link = Nil | Ptr(id: nat)

  /** A list node: the value it holds and the links to its neighbours. */
  datatype Node<T> = Node(value: T, prev: Link, next: Link)

  /** The link before position `i` of `ids`. */
  function PrevOf(ids: seq<nat>, i: nat): Link
    requires i < |ids|
  {
    if i == 0 then Nil else Ptr(ids[i - 1])
  }

  /** The link after position `i` of `ids`. */
  function NextOf(ids: seq<nat>, i: nat): Link
    requires i < |ids|
  {
    if i == |ids| - 1 then Nil else Ptr(ids[i + 1])
  }

  /**
    The handle at position `i` of `ids`. Facts about the node at a position are stated in
    terms of `Slot`, so they come into play only where a proof names that position.
   */
  ghost function Slot(ids: seq<nat>, i: nat): nat
    requires i < |ids|
  {
    ids[i]
  }

  /**
    The arena `nodes` holds exactly the nodes with handles `ids` (as many nodes as handles,
    each handle once), front to back, carrying `vals`, each linked to its neighbours, with
    `front` and `back` at the two ends.
   */
  ghost predicate Linked<T>(nodes: map<nat, Node<T>>, ids: seq<nat>, vals: seq<T>, front: Link, back: Link) {
    && |ids| == |vals| == |nodes|
    && Distinct(ids)
    && (forall i :: 0 <= i < |ids| ==> ids[i] in nodes)
    && (forall i {:trigger Slot(ids, i)} :: 0 <= i < |ids| ==>
          nodes[Slot(ids, i)] == Node(vals[i], PrevOf(ids, i), NextOf(ids, i)))
    && front == (if ids == [] then Nil else Ptr(ids[0]))
    && back == (if ids == [] then Nil else Ptr(ids[|ids| - 1]))
  }

  /** The node at position `i` of a well linked arena. */
  lemma NodeAt<T>(nodes: map<nat, Node<T>>, ids: seq<nat>, vals: seq<T>, front: Link, back: Link, i: nat)
    requires Linked(nodes, ids, vals, front, back) && i < |ids|
    ensures ids[i] in nodes && nodes[ids[i]] == Node(vals[i], PrevOf(ids, i), NextOf(ids, i))
  {
    assert Slot(ids, i) == ids[i];
  }

  /** The arena after a new node `e` holding `v` is linked in between `at` and `succ`. */
  function LinkIn<T>(nodes: map<nat, Node<T>>, e: nat, v: T, at: Link, succ: Link): map<nat, Node<T>>
    requires at.Ptr? ==> at.id in nodes
    requires succ.Ptr? ==> succ.id in nodes
  {
    var n1 := if at.Ptr? then nodes[at.id := nodes[at.id].(next := Ptr(e))] else nodes;
    var n2 := if succ.Ptr? then n1[succ.id := n1[succ.id].(prev := Ptr(e))] else n1;
    n2[e := Node(v, at, succ)]
  }

  /** What linking in changes: the new node, and one link in each neighbour. */
  lemma LinkInEffect<T>(nodes: map<nat, Node<T>>, e: nat, v: T, at: Link, succ: Link)
    requires at.Ptr? ==> at.id in nodes
    requires succ.Ptr? ==> succ.id in nodes
    requires e !in nodes && (at.Ptr? && succ.Ptr? ==> at.id != succ.id)
    ensures var r := LinkIn(nodes, e, v, at, succ);
      && (forall id :: id in r <==> id in nodes || id == e)
      && |r| == |nodes| + 1
      && r[e] == Node(v, at, succ)
      && (at.Ptr? ==> r[at.id] == nodes[at.id].(next := Ptr(e)))
      && (succ.Ptr? ==> r[succ.id] == nodes[succ.id].(prev := Ptr(e)))
      && (forall id :: id in nodes && Ptr(id) != at && Ptr(id) != succ ==> r[id] == nodes[id])
  {
  }

  /** The arena after the node `e` is unlinked from its neighbours and dropped. */
  function UnlinkFrom<T>(nodes: map<nat, Node<T>>, e: nat): map<nat, Node<T>>
    requires e in nodes
    requires nodes[e].prev.Ptr? ==> nodes[e].prev.id in nodes
    requires nodes[e].next.Ptr? ==> nodes[e].next.id in nodes
  {
    var n := nodes[e];
    var n1 := if n.prev.Ptr? then nodes[n.prev.id := nodes[n.prev.id].(next := n.next)] else nodes;
    var n2 := if n.next.Ptr? then n1[n.next.id := n1[n.next.id].(prev := n.prev)] else n1;
    n2 - {e}
  }

  /** What unlinking changes: the node is gone, and each neighbour now links past it. */
  lemma UnlinkFromEffect<T>(nodes: map<nat, Node<T>>, e: nat)
    requires e in nodes
    requires nodes[e].prev.Ptr? ==> nodes[e].prev.id in nodes
    requires nodes[e].next.Ptr? ==> nodes[e].next.id in nodes
    requires nodes[e].prev.Ptr? && nodes[e].next.Ptr? ==> nodes[e].prev.id != nodes[e].next.id
    requires nodes[e].prev != Ptr(e) && nodes[e].next != Ptr(e)
    ensures var r, n := UnlinkFrom(nodes, e), nodes[e];
      && (forall id :: id in r <==> id in nodes && id != e)
      && |r| == |nodes| - 1
      && (n.prev.Ptr? ==> r[n.prev.id] == nodes[n.prev.id].(next := n.next))
      && (n.next.Ptr? ==> r[n.next.id] == nodes[n.next.id].(prev := n.prev))
      && (forall id :: id in r && Ptr(id) != n.prev && Ptr(id) != n.next ==> r[id] == nodes[id])
  {
  }

  /** After linking a fresh node in at position `k`, the node at position `i` is linked to its new neighbours. */
  lemma LinkInAt<T>(nodes: map<nat, Node<T>>, ids: seq<nat>, vals: seq<T>, front: Link, back: Link,
                    e: nat, v: T, k: nat, i: nat)
    requires Linked(nodes, ids, vals, front, back)
    requires k <= |ids| && e !in nodes && i <= |ids|
    ensures var at := if k == 0 then Nil else Ptr(ids[k - 1]);
      var succ := if k == |ids| then Nil else Ptr(ids[k]);
      var ids' := InsertAt(ids, k, e);
      ids'[i] in LinkIn(nodes, e, v, at, succ) &&
      LinkIn(nodes, e, v, at, succ)[ids'[i]] == Node(InsertAt(vals, k, v)[i], PrevOf(ids', i), NextOf(ids', i))
  {
    var at := if k == 0 then Nil else Ptr(ids[k - 1]);
    var succ := if k == |ids| then Nil else Ptr(ids[k]);
    InsertAtLinks(ids, k, e, i);
    if k > 0 {
      NodeAt(nodes, ids, vals, front, back, k - 1);
    }
    if k < |ids| {
      NodeAt(nodes, ids, vals, front, back, k);
    }
    if i != k {
      var j := if i < k then i else i - 1;
      NodeAt(nodes, ids, vals, front, back, j);
      if i != k - 1 && i != k + 1 {
        assert Ptr(ids[j]) != at && Ptr(ids[j]) != succ by {
          assert k > 0 ==> ids[j] != ids[k - 1];
          assert k < |ids| ==> ids[j] != ids[k];
        }
      }
    }
    LinkInEffect(nodes, e, v, at, succ);
  }

  /** Where the neighbours of position `i` come from once `e` is inserted at position `k`. */
  lemma InsertAtLinks(ids: seq<nat>, k: nat, e: nat, i: nat)
    requires k <= |ids| && i <= |ids|
    ensures var ids' := InsertAt(ids, k, e);
      i == k ==>
        && PrevOf(ids', i) == (if k == 0 then Nil else Ptr(ids[k - 1]))
        && NextOf(ids', i) == (if k == |ids| then Nil else Ptr(ids[k]))
    ensures var ids', j := InsertAt(ids, k, e), if i < k then i else i - 1;
      i != k ==>
        && 0 <= j < |ids| && ids'[i] == ids[j]
        && PrevOf(ids', i) == (if i == k + 1 then Ptr(e) else PrevOf(ids, j))
        && NextOf(ids', i) == (if i + 1 == k then Ptr(e) else NextOf(ids, j))
  {
    var ids' := InsertAt(ids, k, e);
    if 0 < i && i != k + 1 && i != k {
      assert ids'[i - 1] == ids[if i - 1 < k then i - 1 else i - 2];
    }
    if i + 1 < |ids'| && i + 1 != k && i != k {
      assert ids'[i + 1] == ids[if i + 1 < k then i + 1 else i];
    }
  }

  /** The ends of the list after a node `e` is linked in at position `k`. */
  lemma LinkEnds(ids: seq<nat>, k: nat, e: nat)
    requires k <= |ids|
    ensures var ids' := InsertAt(ids, k, e);
      && (if k != 0 then Ptr(ids[0]) else Ptr(e)) == Ptr(ids'[0])
      && (if k != |ids| then Ptr(ids[|ids| - 1]) else Ptr(e)) == Ptr(ids'[|ids'| - 1])
  {
  }

  /** Linking a fresh node in at position `k` keeps the arena well linked. */
  lemma LinkInLinked<T>(nodes: map<nat, Node<T>>, ids: seq<nat>, vals: seq<T>, front: Link, back: Link,
                        e: nat, v: T, k: nat)
    requires Linked(nodes, ids, vals, front, back)
    requires k <= |ids| && e !in nodes
    ensures var at := if k == 0 then Nil else Ptr(ids[k - 1]);
      && (at.Ptr? ==> at.id in nodes)
      && (if at.Ptr? then nodes[at.id].next else front) == if k == |ids| then Nil else Ptr(ids[k])
    ensures var at := if k == 0 then Nil else Ptr(ids[k - 1]);
      var succ := if k == |ids| then Nil else Ptr(ids[k]);
      && (succ.Ptr? ==> succ.id in nodes && (at.Ptr? ==> at.id != succ.id))
      && Linked(LinkIn(nodes, e, v, at, succ), InsertAt(ids, k, e), InsertAt(vals, k, v),
             if at.Ptr? then front else Ptr(e), if succ.Ptr? then back else Ptr(e))
      && (forall id :: id in LinkIn(nodes, e, v, at, succ) ==> id in nodes || id == e)
  {
    var at := if k == 0 then Nil else Ptr(ids[k - 1]);
    var succ := if k == |ids| then Nil else Ptr(ids[k]);
    var n := LinkIn(nodes, e, v, at, succ);
    var ids', vals' := InsertAt(ids, k, e), InsertAt(vals, k, v);
    if k > 0 {
      NodeAt(nodes, ids, vals, front, back, k - 1);
    }
    if k < |ids| {
      NodeAt(nodes, ids, vals, front, back, k);
    }
    forall i | 0 <= i < |ids| ensures ids[i] != e {
      NodeAt(nodes, ids, vals, front, back, i);
    }
    LinkInEffect(nodes, e, v, at, succ);
    InsertAtDistinct(ids, k, e);
    forall i | 0 <= i < |ids'|
      ensures n[Slot(ids', i)] == Node(vals'[i], PrevOf(ids', i), NextOf(ids', i))
    {
      LinkInAt(nodes, ids, vals, front, back, e, v, k, i);
    }
    LinkEnds(ids, k, e);
  }

  /** After unlinking the node at position `k`, the node now at position `i` is linked to its new neighbours. */
  lemma UnlinkFromAt<T>(nodes: map<nat, Node<T>>, ids: seq<nat>, vals: seq<T>, front: Link, back: Link, k: nat, i: nat)
    requires Linked(nodes, ids, vals, front, back)
    requires k < |ids| && i < |ids| - 1
    ensures nodes[ids[k]] == Node(vals[k], PrevOf(ids, k), NextOf(ids, k))
    ensures var ids' := RemoveAt(ids, k);
      ids'[i] in UnlinkFrom(nodes, ids[k]) &&
      UnlinkFrom(nodes, ids[k])[ids'[i]] == Node(RemoveAt(vals, k)[i], PrevOf(ids', i), NextOf(ids', i))
  {
    RemoveAtLinks(ids, k, i);
    var j := if i < k then i else i + 1;
    NodeAt(nodes, ids, vals, front, back, k);
    NodeAt(nodes, ids, vals, front, back, j);
    if j != k - 1 && j != k + 1 {
      assert Ptr(ids[j]) != PrevOf(ids, k) && Ptr(ids[j]) != NextOf(ids, k) by {
        assert k > 0 ==> ids[j] != ids[k - 1];
        assert k + 1 < |ids| ==> ids[j] != ids[k + 1];
      }
    }
    UnlinkFromEffect(nodes, ids[k]);
  }

  /** Where the neighbours of position `i` come from once position `k` is removed. */
  lemma RemoveAtLinks(ids: seq<nat>, k: nat, i: nat)
    requires k < |ids| && i < |ids| - 1
    ensures var ids', j := RemoveAt(ids, k), if i < k then i else i + 1;
      && ids'[i] == ids[j]
      && PrevOf(ids', i) == (if j == k + 1 then PrevOf(ids, k) else PrevOf(ids, j))
      && NextOf(ids', i) == (if j + 1 == k then NextOf(ids, k) else NextOf(ids, j))
  {
    var ids' := RemoveAt(ids, k);
    var j := if i < k then i else i + 1;
    if 0 < i {
      assert ids'[i - 1] == if j == k + 1 then ids[k - 1] else ids[j - 1];
    }
    if i + 1 < |ids'| {
      assert ids'[i + 1] == if j + 1 == k then ids[k + 1] else ids[j + 1];
    }
  }

  /** Unlinking the node at position `k` keeps the arena well linked. */
  lemma UnlinkFromLinked<T>(nodes: map<nat, Node<T>>, ids: seq<nat>, vals: seq<T>, front: Link, back: Link, k: nat)
    requires Linked(nodes, ids, vals, front, back)
    requires k < |ids|
    ensures var e := ids[k];
      && e in nodes && nodes[e].prev == PrevOf(ids, k) && nodes[e].next == NextOf(ids, k)
      && Linked(UnlinkFrom(nodes, e), RemoveAt(ids, k), RemoveAt(vals, k),
                if nodes[e].prev.Ptr? then front else nodes[e].next,
                if nodes[e].next.Ptr? then back else nodes[e].prev)
      && (forall id :: id in UnlinkFrom(nodes, e) ==> id in nodes && id != e)
  {
    NodeAt(nodes, ids, vals, front, back, k);
    var n, ids', vals' := UnlinkFrom(nodes, ids[k]), RemoveAt(ids, k), RemoveAt(vals, k);
    UnlinkFromEffect(nodes, ids[k]);
    forall i | 0 <= i < |ids'|
      ensures n[Slot(ids', i)] == Node(vals'[i], PrevOf(ids', i), NextOf(ids', i))
    {
      UnlinkFromAt(nodes, ids, vals, front, back, k, i);
    }
    RemoveAtDistinct(ids, k);
    UnlinkEnds(ids, k);
  }

  /** The ends of the list after the node at position `k` is unlinked. */
  lemma UnlinkEnds(ids: seq<nat>, k: nat)
    requires k < |ids|
    ensures var ids' := RemoveAt(ids, k);
      && (if PrevOf(ids, k).Ptr? then Ptr(ids[0]) else NextOf(ids, k)) == (if ids' == [] then Nil else Ptr(ids'[0]))
      && (if NextOf(ids, k).Ptr? then Ptr(ids[|ids| - 1]) else PrevOf(ids, k)) == (if ids' == [] then Nil else Ptr(ids'[|ids'| - 1]))
  {
  }

  class List<T> {
    var nodes: map<nat, Node<T>>
    var front: Link
    var back: Link
    var len: nat
    /** The next handle to allocate; every handle in use is below it. */
    var nextId: nat

    ghost var Ids: seq<nat>
    ghost var Values: seq<T>

    /** The arena is well linked along `Ids`, `len` counts the nodes, and no handle is at or above `nextId`. */
    ghost predicate Valid()
      reads this
    {
      && len == |Ids|
      && Linked(nodes, Ids, Values, front, back)
      && (forall id :: id in nodes ==> id < nextId)
    }

    /** An empty list (Go's `list.New`). */
    constructor ()
      ensures Valid() && Ids == [] && Values == []
    {
      nodes, front, back, len, nextId := map[], Nil, Nil, 0, 0;
      Ids, Values := [], [];
    }

    /** Links a node with handle `e` and value `v` right after `at` (at the front when `at` is Nil). */
    method Link(e: nat, v: T, at: Link, ghost k: nat)
      requires Valid()
      requires k <= |Ids| && at == (if k == 0 then Nil else Ptr(Ids[k - 1]))
      requires e !in nodes && e < nextId
      modifies this
      ensures Valid() && nextId == old(nextId)
      ensures Ids == InsertAt(old(Ids), k, e) && Values == InsertAt(old(Values), k, v)
    {
      LinkInLinked(nodes, Ids, Values, front, back, e, v, k);
      var succ := if at.Ptr? then nodes[at.id].next else front;
      nodes := LinkIn(nodes, e, v, at, succ);
      front := if at.Ptr? then front else Ptr(e);
      back := if succ.Ptr? then back else Ptr(e);
      len := len + 1;
      Ids := InsertAt(Ids, k, e);
      Values := InsertAt(Values, k, v);
    }

    /** Takes the node at position `k`, with handle `e`, out of the list. */
    method Unlink(e: nat, ghost k: nat)
      requires Valid() && k < |Ids| && Ids[k] == e
      modifies this
      ensures Valid() && nextId == old(nextId)
      ensures Ids == RemoveAt(old(Ids), k) && Values == RemoveAt(old(Values), k)
      ensures e !in nodes
    {
      UnlinkFromLinked(nodes, Ids, Values, front, back, k);
      var n := nodes[e];
      nodes := UnlinkFrom(nodes, e);
      front := if n.prev.Ptr? then front else n.next;
      back := if n.next.Ptr? then back else n.prev;
      len := len - 1;
      Ids := RemoveAt(Ids, k);
      Values := RemoveAt(Values, k);
    }

    /** The value held by the node `e` found at position `k`. */
    function ValueOf(e: nat, ghost k: nat): (v: T)
      reads this
      requires Valid() && k < |Ids| && Ids[k] == e
      ensures v == Values[k]
    {
      NodeAt(nodes, Ids, Values, front, back, k);
      nodes[e].value
    }

    /** The node after `e`, which is found at position `k`; Nil at the back. */
    function Next(e: nat, ghost k: nat): (r: Link)
      reads this
      requires Valid() && k < |Ids| && Ids[k] == e
      ensures r == if k + 1 < |Ids| then Ptr(Ids[k + 1]) else Nil
    {
      NodeAt(nodes, Ids, Values, front, back, k);
      nodes[e].next
    }

    /** The node before `e`, which is found at position `k`; Nil at the front. */
    function Prev(e: nat, ghost k: nat): (r: Link)
      reads this
      requires Valid() && k < |Ids| && Ids[k] == e
      ensures r == if k == 0 then Nil else Ptr(Ids[k - 1])
    {
      NodeAt(nodes, Ids, Values, front, back, k);
      nodes[e].prev
    }

    /** Allocates a node for `v` right after `at` and returns its handle. */
    method InsertValue(v: T, at: Link, ghost k: nat) returns (e: nat)
      requires Valid()
      requires k <= |Ids| && at == (if k == 0 then Nil else Ptr(Ids[k - 1]))
      modifies this
      ensures Valid() && e !in old(nodes)
      ensures Ids == InsertAt(old(Ids), k, e) && Values == InsertAt(old(Values), k, v)
    {
      e := nextId;
      nextId := nextId + 1;
      Link(e, v, at, k);
    }

    /** Appends a node holding `v` at the back and returns its handle. */
    method PushBack(v: T) returns (e: nat)
      requires Valid()
      modifies this
      ensures Valid() && e !in old(nodes)
      ensures Ids == old(Ids) + [e] && Values == old(Values) + [v]
    {
      e := InsertValue(v, back, |Ids|);
    }

    /** Adds a node holding `v` at the front and returns its handle. */
    method PushFront(v: T) returns (e: nat)
      requires Valid()
      modifies this
      ensures Valid() && e !in old(nodes)
      ensures Ids == [e] + old(Ids) && Values == [v] + old(Values)
    {
      e := InsertValue(v, Nil, 0);
    }

    /** Inserts `v` right after the node `mark`, found at position `k`. */
    method InsertAfter(v: T, mark: nat, ghost k: nat) returns (e: nat)
      requires Valid() && k < |Ids| && Ids[k] == mark
      modifies this
      ensures Valid() && e !in old(nodes)
      ensures Ids == InsertAt(old(Ids), k + 1, e) && Values == InsertAt(old(Values), k + 1, v)
    {
      e := InsertValue(v, Ptr(mark), k + 1);
    }

    /** Inserts `v` right before the node `mark`, found at position `k`. */
    method InsertBefore(v: T, mark: nat, ghost k: nat) returns (e: nat)
      requires Valid() && k < |Ids| && Ids[k] == mark
      modifies this
      ensures Valid() && e !in old(nodes)
      ensures Ids == InsertAt(old(Ids), k, e) && Values == InsertAt(old(Values), k, v)
    {
      NodeAt(nodes, Ids, Values, front, back, k);
      e := InsertValue(v, nodes[mark].prev, k);
    }

    /** Removes the node `e`, found at position `k`, and returns its value. */
    method Remove(e: nat, ghost k: nat) returns (v: T)
      requires Valid() && k < |Ids| && Ids[k] == e
      modifies this
      ensures Valid() && v == old(Values)[k]
      ensures Ids == RemoveAt(old(Ids), k) && Values == RemoveAt(old(Values), k)
    {
      NodeAt(nodes, Ids, Values, front, back, k);
      v := nodes[e].value;
      Unlink(e, k);
    }

    /**
      Relinks the node `e`, found at position `ke`, right after `at`, which is the link
      before position `ka`; nothing happens when `at` is `e` itself.
     */
    method Move(e: nat, at: Link, ghost ke: nat, ghost ka: nat)
      requires Valid() && ke < |Ids| && Ids[ke] == e
      requires ka <= |Ids| && at == (if ka == 0 then Nil else Ptr(Ids[ka - 1]))
      modifies this
      ensures Valid()
      ensures var to := if ka > ke then ka - 1 else ka;
        to < |Ids| && Ids == Splice(old(Ids), ke, to) && Values == Splice(old(Values), ke, to)
    {
      ghost var to := if ka > ke then ka - 1 else ka;
      if at == Ptr(e) {
        assert ka - 1 == ke by {
          assert Distinct(Ids) && Ids[ka - 1] == Ids[ke];
        }
        SpliceInPlace(Ids, ke);
        SpliceInPlace(Values, ke);
        return;
      }
      NodeAt(nodes, Ids, Values, front, back, ke);
      var v := nodes[e].value;
      ghost var ids0, vals0 := Ids, Values;
      Unlink(e, ke);
      assert at == (if to == 0 then Nil else Ptr(Ids[to - 1])) by {
        assert to > 0 ==> ka - 1 != ke && Ids[to - 1] == ids0[ka - 1];
      }
      Link(e, v, at, to);
      assert Ids == Splice(ids0, ke, to) && Values == Splice(vals0, ke, to);
    }

    /** Moves the node `e` (at position `ke`) right after the node `mark` (at position `km`); a no-op when they are the same node. */
    method MoveAfter(e: nat, mark: nat, ghost ke: nat, ghost km: nat)
      requires Valid() && ke < |Ids| && Ids[ke] == e && km < |Ids| && Ids[km] == mark
      modifies this
      ensures Valid()
      ensures e == mark ==> Ids == old(Ids) && Values == old(Values)
      ensures e != mark ==>
        var to := MoveTarget(ke, km, true);
        to < |Ids| && Ids == Splice(old(Ids), ke, to) && Values == Splice(old(Values), ke, to)
    {
      if e == mark {
        return;
      }
      Move(e, Ptr(mark), ke, km + 1);
    }

    /** Moves the node `e` (at position `ke`) right before the node `mark` (at position `km`); a no-op when they are the same node. */
    method MoveBefore(e: nat, mark: nat, ghost ke: nat, ghost km: nat)
      requires Valid() && ke < |Ids| && Ids[ke] == e && km < |Ids| && Ids[km] == mark
      modifies this
      ensures Valid()
      ensures e == mark ==> Ids == old(Ids) && Values == old(Values)
      ensures e != mark ==>
        var to := MoveTarget(ke, km, false);
        to < |Ids| && Ids == Splice(old(Ids), ke, to) && Values == Splice(old(Values), ke, to)
    {
      if e == mark {
        return;
      }
      NodeAt(nodes, Ids, Values, front, back, km);
      Move(e, nodes[mark].prev, ke, km);
    }
  }
}
