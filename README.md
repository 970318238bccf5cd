# ordset in Dafny

A model of `ordset`, a Go package providing a generic ordered set `OrderedSet[T]`. The set
pairs a doubly linked list (Go's `container/list`), which keeps the members in order, with
a map from each member to the list element that holds it. The map makes membership a
lookup, keeps out duplicates, and lets Remove, Insert and Move find their element without
searching the list.

The project has five modules:

- `Wrappers`: the `Option` type.
- `Seqs`: the meaning of each operation stated on plain sequences, with the lemmas that
  characterise those functions:
  - `Dedup` for `New`;
  - `Placed` for `Insert`;
  - `Moved` for `Move`;
  - `Without` for `Remove`;
  - `Backwards`, `PopAll` and `ShiftAll` for reverse traversal and draining.
- `LinkedList`: the part of `container/list` the set uses, as a class `List<T>`.
  - Nodes live in an arena `map<nat, Node<T>>` keyed by a handle, which stands in for a
    `*list.Element`.
  - The ghost fields `Ids` and `Values` give the handles and the values front to back.
    `Valid()` says the arena links them correctly.
- `OrdSet`: the class `OrderedSet<T>` with the list and the map as fields.
  - `Valid()` says the list is well formed, holds no value twice, and the map sends each
    member to the handle of its node and has no other keys.
  - `Elements()` is the observable state: the members, front to back.
  - Every method preserves `Valid()` and states its new `Elements()` through a `Seqs`
    function.
- `Examples`: the outcomes the package's tests and examples expect, proved on those
  functions.

A method changes the list only through the `List` operations the Go code calls
(`PushBack`, `PushFront`, `InsertAfter`, `InsertBefore`, `Remove`, `MoveAfter`,
`MoveBefore`). It reads the list through `front`, `back`, `ValueOf`, `Next` and `Prev`,
which stand for `Front()`, `Back()`, `e.Value`, `e.Next()` and `e.Prev()`.

## Model

| member | source | states |
|---|---|---|
| OrdSet.OrderedSet.constructor | ordset.go:57-66 | `New(elems...)` gives a valid set whose members are `elems` in order, with every later repetition dropped (`Dedup(elems)`) |
| Seqs.DedupSpec | ordset.go:57-66 | what `New` keeps: no duplicates, exactly the values of the input, ordered by first occurrence |
| Seqs.DedupRepeats | ordset.go:62-64 | appending values that are already members changes nothing, as `Append` skips them |
| Seqs.DedupOfDistinct | ordset.go:62-64 | a duplicate-free input is kept as it is |
| OrdSet.OrderedSet.Len | ordset.go:69-71 | the length is the number of members |
| OrdSet.OrderedSet.Has | ordset.go:74-77 | the map lookup succeeds exactly when `v` is a member |
| OrdSet.OrderedSet.MappingSize | ordset.go:51-54 | the map has exactly one entry per member, so `len(mapping) == Len()` |
| Seqs.DistinctCard | ordset.go:51-54 | a duplicate-free sequence has as many distinct values as elements |
| OrdSet.OrderedSet.Front | ordset.go:80-82 | returns the first member (for a non-empty set) |
| OrdSet.OrderedSet.Back | ordset.go:85-87 | returns the last member (for a non-empty set) |
| OrdSet.OrderedSet.Append | ordset.go:90-96 | returns true exactly when `v` was not a member; then `v` is added at the back, otherwise nothing changes; the set stays valid |
| OrdSet.OrderedSet.Prepend | ordset.go:99-105 | returns true exactly when `v` was not a member; then `v` is added at the front, otherwise nothing changes |
| OrdSet.OrderedSet.Pop | ordset.go:109-117 | `ok` exactly when the set was non-empty; then returns the last member and removes it, otherwise nothing changes |
| OrdSet.OrderedSet.Shift | ordset.go:121-129 | `ok` exactly when the set was non-empty; then returns the first member and removes it, otherwise nothing changes |
| Seqs.PopAllIsBackwards | ordset_test.go:167-187 | popping until empty yields the members back to front |
| Seqs.ShiftAllIsInOrder | ordset_test.go:189-208 | shifting until empty yields the members front to back |
| OrdSet.OrderedSet.Insert | ordset.go:136-150 | a missing mark gives `ErrMarkNotFound` and no change, checked before membership of `v`; with the mark present, `added` exactly when `v` was not a member; a new `v` is placed next to the mark (`Placed`) |
| Seqs.PlacedSpec | ordset.go:131-135 | `Placed` keeps the set duplicate free, adds exactly `v`, puts it right after (or right before) the mark, and leaves the other members in their order |
| Seqs.PlacedAt | ordset.go:144-148 | insertion after or before the mark's element is insertion at the position after or at the mark |
| OrdSet.IndexedPlace | ordset.go:144-148 | inserting the new node next to the mark's node and storing its handle keeps the map exact, and the list becomes `Placed` |
| OrdSet.OrderedSet.Move | ordset.go:155-167 | a missing mark gives `ErrMarkNotFound` and no change; otherwise no error, and the members become `Moved(old, v, mark, after)` (no change when `v` is not a member or is the mark) |
| Seqs.MovedSpec | ordset.go:152-154 | `Moved` keeps the members and the length, stays duplicate free, keeps the order of the other members, and puts a moved `v` right after (or before) the mark |
| Seqs.MovedIsSplice | ordset.go:159-165 | moving by value is taking the element out at its position and putting it back at `MoveTarget` |
| OrdSet.IndexedMove | ordset.go:159-165 | relinking the node leaves the map exact without changing it, and the list becomes `Moved` |
| OrdSet.OrderedSet.Remove | ordset.go:169-176 | returns true exactly when `v` was a member; the members become `Without(old, v)` |
| Seqs.WithoutSpec | ordset.go:169-176 | deleting a value keeps the set duplicate free and drops one element exactly when it was a member |
| OrdSet.IndexedWithout | ordset.go:170-173 | unlinking the node and deleting the map entry keeps the map exact, and the list becomes `Without` |
| OrdSet.OrderedSet.Range | ordset.go:178-188 | returns the error of the first call of `visit` (front to back, with positions 0, 1, …) that fails, or none |
| OrdSet.OrderedSet.RangeReverse | ordset.go:190-200 | the same over the members back to front, positions counting from 0 at the back |
| OrdSet.FirstErrorSpec | ordset.go:178-200 | the error returned is the one from the first failing call, and every call before it succeeds; there is no error exactly when every call succeeds |
| OrdSet.OrderedSet.Slice | ordset.go:202-209 | a fresh array of length `Len()` holding the members front to back |
| LinkedList.List.constructor | ordset.go:59 | `list.New()` is empty |
| LinkedList.List.PushBack | ordset.go:94 | a new node at the back; the handle is new |
| LinkedList.List.PushFront | ordset.go:103 | a new node at the front; the handle is new |
| LinkedList.List.InsertAfter | ordset.go:145 | a new node right after the mark's node |
| LinkedList.List.InsertBefore | ordset.go:147 | a new node right before the mark's node |
| LinkedList.List.Remove | ordset.go:112-113 | unlinks the node, returns its value, keeps the rest in order |
| LinkedList.List.MoveAfter | ordset.go:161 | the node is spliced to just after the mark; no change when it is the mark |
| LinkedList.List.MoveBefore | ordset.go:163 | the node is spliced to just before the mark; no change when it is the mark |
| LinkedList.List.ValueOf | ordset.go:181 | `elem.Value` is the value at the node's position |
| LinkedList.List.Next | ordset.go:180 | `elem.Next()` is the node at the following position, or nil at the back |
| LinkedList.List.Prev | ordset.go:192 | `elem.Prev()` is the node at the preceding position, or nil at the front |
| Examples.NewDropsRepeats | ordset_test.go:69-85 | building from 0, 3, 4, 1, 19, 21, 4, 3, 0 keeps 0, 3, 4, 1, 19, 21 |
| Examples.InsertAfterMark | ordset_test.go:105-122 | inserting 4 after 3 into 1, 2, 3, 5 gives 1, 2, 3, 4, 5 |
| Examples.InsertBeforeMark | example_test.go:31-40 | inserting 40 with mark 50 and `after` false into 10, 20, 30, 50, 60 gives 10, 20, 30, 40, 50, 60 |
| Examples.MoveAfterMark | ordset_test.go:146-159 | moving 4 after 3 in 1, 2, 4, 3, 5 gives 1, 2, 3, 4, 5 |
| Examples.MoveBeforeMark | example_test.go:62-73 | moving 150 before 200 in 100, 200, 150, 250 gives 100, 150, 200, 250 |
| Examples.DrainOrder | ordset_test.go:167-208 | popping 1..5 yields 5, 4, 3, 2, 1; shifting yields 1, 2, 3, 4, 5 |
| Examples.RangeStopsAtTwo | example_test.go:10-29 | a visitor that fails at "two" makes Range return that visitor's error |

## Left out

- `container/list` and the Go map are modelled, not used. The list is an arena of nodes addressed by handles, and the map is a Dafny `map` from members to handles. Pointer identity, garbage collection and the list's `root` sentinel do not exist in the model.
- The list's own validity checks are not modelled. `container/list` ignores an element belonging to another list, but here the set only passes its own nodes. The list methods take the node's position as a ghost argument instead.
- `elem.Value.(T)` type assertions are not modelled: every node holds a `T`.
- Sets of pointer types, whose members are compared by pointer identity (ordset_test.go:87-103), are not modelled: members are compared by value.
- Range and RangeReverse: the visitor is a pure function returning `Option<E>` in place of a Go `error`. A visitor's side effects (printing, writing into captured state) are not modelled.
- OrdSet.OrderedSet.Slice fills the array with its own loop over the list. It does not go through `Range` with a closure that writes into the array.
- OrdSet.OrderedSet.Front and OrdSet.OrderedSet.Back require a non-empty set, because Go dereferences a nil element and panics there. The panic itself is not modelled.
- OrdSet.OrderedSet.Pop and OrdSet.OrderedSet.Shift leave the value returned on an empty set unconstrained. Go returns `T`'s zero value, and Dafny has no zero value that is the same for every type.
- Concurrency is not modelled: the Go type is not safe for concurrent use, and the model is sequential.
- Go's `int` is unbounded here. Len cannot reach the 64-bit limit in practice.
- The doc comment of `Back` (ordset.go:84) says "front", but the code returns the last element. The model follows the code.
- The comment at example_test.go:34 says "Inserts 40 after 50", but the call passes `after` false, and the expected output (example_test.go:56) puts 40 before 50. The model follows the code: see `Examples.InsertBeforeMark`.
- Move with `v == mark` follows `container/list`: moving an element relative to itself does nothing.
