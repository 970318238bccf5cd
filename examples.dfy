/**
  The outcomes the package's tests and examples expect, stated on the functions that
  specify the set's operations: the set's methods promise these functions' values, so
  each lemma here says what the corresponding scenario yields.
 */
module Examples {
  import opened Wrappers
  import opened Seqs
  import opened OrdSet

  /** Building from 0, 3, 4, 1, 19, 21, 4, 3, 0 keeps 0, 3, 4, 1, 19, 21. */
  lemma NewDropsRepeats()
    ensures Dedup([0, 3, 4, 1, 19, 21, 4, 3, 0]) == [0, 3, 4, 1, 19, 21]
  {
    var firsts, repeats := [0, 3, 4, 1, 19, 21], [4, 3, 0];
    assert firsts + repeats == [0, 3, 4, 1, 19, 21, 4, 3, 0];
    DedupRepeats(firsts, repeats);
    DedupOfDistinct(firsts);
  }

  /** Inserting 40 with mark 50 and `after` false puts 40 in front of 50. */
  lemma InsertBeforeMark()
    ensures Placed([10, 20, 30, 50, 60], 40, 50, false) == [10, 20, 30, 40, 50, 60]
  {
    var s := [10, 20, 30, 50, 60];
    PlacedAt(s, 3, 40, false);
    assert InsertAt(s, 3, 40) == [10, 20, 30, 40, 50, 60];
  }

  /** Inserting 4 after 3 into 1, 2, 3, 5. */
  lemma InsertAfterMark()
    ensures Placed([1, 2, 3, 5], 4, 3, true) == [1, 2, 3, 4, 5]
  {
    var s := [1, 2, 3, 5];
    PlacedAt(s, 2, 4, true);
    assert InsertAt(s, 3, 4) == [1, 2, 3, 4, 5];
  }

  /** Moving 150 in front of 200 in 100, 200, 150, 250. */
  lemma MoveBeforeMark()
    ensures Moved([100, 200, 150, 250], 150, 200, false) == [100, 150, 200, 250]
  {
    var s := [100, 200, 150, 250];
    assert Distinct(s) && s[2] == 150 && s[1] == 200;
    MovedIsSplice(s, 2, 1, false);
    SpliceBack(s);
  }

  /** Taking the element at position 2 of 100, 200, 150, 250 to position 1. */
  lemma SpliceBack(s: seq<int>)
    requires s == [100, 200, 150, 250]
    ensures Splice(s, 2, 1) == [100, 150, 200, 250]
  {
    var r := Splice(s, 2, 1);
    assert r[0] == s[SpliceSource(2, 1, 0)] == 100;
    assert r[1] == s[SpliceSource(2, 1, 1)] == 150;
    assert r[2] == s[SpliceSource(2, 1, 2)] == 200;
    assert r[3] == s[SpliceSource(2, 1, 3)] == 250;
  }

  /** Moving 4 behind 3 in 1, 2, 4, 3, 5. */
  lemma MoveAfterMark()
    ensures Moved([1, 2, 4, 3, 5], 4, 3, true) == [1, 2, 3, 4, 5]
  {
    var s := [1, 2, 4, 3, 5];
    assert Distinct(s) && s[2] == 4 && s[3] == 3;
    MovedIsSplice(s, 2, 3, true);
    SpliceForward(s);
  }

  /** Taking the element at position 2 of 1, 2, 4, 3, 5 to position 3. */
  lemma SpliceForward(s: seq<int>)
    requires s == [1, 2, 4, 3, 5]
    ensures Splice(s, 2, 3) == [1, 2, 3, 4, 5]
  {
    var r := Splice(s, 2, 3);
    assert r[0] == s[SpliceSource(2, 3, 0)] == 1;
    assert r[1] == s[SpliceSource(2, 3, 1)] == 2;
    assert r[2] == s[SpliceSource(2, 3, 2)] == 3;
    assert r[3] == s[SpliceSource(2, 3, 3)] == 4;
    assert r[4] == s[SpliceSource(2, 3, 4)] == 5;
  }

  /** Popping 1..5 until empty yields 5..1; shifting yields 1..5. */
  lemma DrainOrder()
    ensures PopAll([1, 2, 3, 4, 5]) == [5, 4, 3, 2, 1]
    ensures ShiftAll([1, 2, 3, 4, 5]) == [1, 2, 3, 4, 5]
  {
    PopAllIsBackwards([1, 2, 3, 4, 5]);
    ShiftAllIsInOrder([1, 2, 3, 4, 5]);
  }

  /** A visitor that gives up at "two" makes Range stop there with its error. */
  lemma RangeStopsAtTwo()
    ensures FirstError(["zero", "one", "two", "three"],
                       (i: int, str: string) => if str == "two" then Some("reached two, giving up now") else None)
         == Some("reached two, giving up now")
  {
    var s := ["zero", "one", "two", "three"];
    var visit := (i: int, str: string) => if str == "two" then Some("reached two, giving up now") else None;
    assert visit(0, s[0]) == None && visit(1, s[1]) == None;
    assert FirstErrorFrom(s, visit, 2) == Some("reached two, giving up now");
  }
}
