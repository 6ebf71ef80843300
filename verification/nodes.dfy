/**
 * NodesController of src/kopf/controllers/nodes.js: the sort column of the
 * node list with its direction flag, and the list of nodes the current
 * filter lets through.
 */
module NodesView {

  /** `$scope.sortBy` and `$scope.reverse`. */
  datatype SortState = SortState(sortBy: string, reverse: bool)

  const INITIAL_SORT := SortState("name", false)

  /** The state after `setSortBy(field)`: clicking the current column flips the direction. */
  function Toggled(state: SortState, field: string): (r: SortState)
    ensures r.sortBy == field
    ensures field == state.sortBy ==> r.reverse == !state.reverse
    ensures field != state.sortBy ==> r.reverse == state.reverse
  {
    SortState(field, if state.sortBy == field then !state.reverse else state.reverse)
  }

  /** Clicking the current column twice restores the direction. */
  lemma ToggleTwiceRestores(state: SortState)
    ensures Toggled(Toggled(state, state.sortBy), state.sortBy) == state
  {
  }

  /** Clicking a new column twice sorts by it in the opposite of the old direction. */
  lemma NewColumnTwiceFlips(state: SortState, field: string)
    requires field != state.sortBy
    ensures Toggled(Toggled(state, field), field) == SortState(field, !state.reverse)
  {
  }

  /** `nodes.filter(keep)`. */
  function Filtered<T>(nodes: seq<T>, keep: T -> bool): (r: seq<T>)
    ensures |r| <= |nodes|
    ensures forall x :: x in r ==> x in nodes && keep(x)
    ensures forall i :: 0 <= i < |nodes| && keep(nodes[i]) ==> nodes[i] in r
  {
    if |nodes| == 0 then []
    else (if keep(nodes[0]) then [nodes[0]] else []) + Filtered(nodes[1..], keep)
  }

  /** Filtering works piece by piece: the kept elements stay in their original order. */
  lemma {:induction false} FilteredConcat<T>(s: seq<T>, t: seq<T>, keep: T -> bool)
    ensures Filtered(s + t, keep) == Filtered(s, keep) + Filtered(t, keep)
  {
    if |s| > 0 {
      assert (s + t)[1..] == s[1..] + t;
      FilteredConcat(s[1..], t, keep);
    } else {
      assert s + t == t;
    }
  }

  /** Every kept element is kept as often as it occurs; every other one is dropped. */
  lemma {:induction false} FilteredCounts<T>(nodes: seq<T>, keep: T -> bool, x: T)
    ensures multiset(Filtered(nodes, keep))[x] == if keep(x) then multiset(nodes)[x] else 0
  {
    if |nodes| > 0 {
      FilteredCounts(nodes[1..], keep, x);
      assert nodes == [nodes[0]] + nodes[1..];
    }
  }

  /** `r` is obtained from `s` by deleting elements. */
  predicate IsSubsequence<T(==)>(r: seq<T>, s: seq<T>) {
    if |r| == 0 then true
    else if |s| == 0 then false
    else if r[0] == s[0] then IsSubsequence(r[1..], s[1..])
    else IsSubsequence(r, s[1..])
  }

  lemma {:induction false} SubsequenceOfTail<T>(r: seq<T>, s: seq<T>)
    requires |s| > 0 && IsSubsequence(r, s[1..])
    ensures IsSubsequence(r, s)
    decreases |s|, 0
  {
    if |r| > 0 && r[0] == s[0] {
      SubsequenceDropHead(r, s[1..]);
    }
  }

  lemma {:induction false} SubsequenceDropHead<T>(r: seq<T>, s: seq<T>)
    requires |r| > 0 && IsSubsequence(r, s)
    ensures IsSubsequence(r[1..], s)
    decreases |s|, 1
  {
    if r[0] == s[0] {
      SubsequenceOfTail(r[1..], s);
    } else {
      SubsequenceDropHead(r, s[1..]);
      SubsequenceOfTail(r[1..], s);
    }
  }

  /** The filtered list is a subsequence of the node list. */
  lemma {:induction false} FilteredIsSubsequence<T>(nodes: seq<T>, keep: T -> bool)
    ensures IsSubsequence(Filtered(nodes, keep), nodes)
  {
    if |nodes| > 0 {
      FilteredIsSubsequence(nodes[1..], keep);
      var rest := Filtered(nodes[1..], keep);
      if keep(nodes[0]) {
        assert Filtered(nodes, keep) == [nodes[0]] + rest;
        assert ([nodes[0]] + rest)[1..] == rest;
      } else {
        assert Filtered(nodes, keep) == rest;
        SubsequenceOfTail(rest, nodes);
      }
    }
  }

  class NodesController<T> {
    var sortBy: string
    var reverse: bool
    var nodes: seq<T>

    constructor ()
      ensures SortView() == INITIAL_SORT && nodes == []
    {
      sortBy := "name";
      reverse := false;
      nodes := [];
    }

    function SortView(): SortState
      reads this
    {
      SortState(sortBy, reverse)
    }

    method SetSortBy(field: string)
      modifies this
      ensures SortView() == Toggled(old(SortView()), field)
      ensures nodes == old(nodes)
    {
      if sortBy == field {
        reverse := !reverse;
      }
      sortBy := field;
    }

    /** `refresh`, given the cluster's node list and the filter's `matches`. */
    method Refresh(all: seq<T>, matches: T -> bool)
      modifies this
      ensures nodes == Filtered(all, matches)
      ensures SortView() == old(SortView())
    {
      nodes := Filtered(all, matches);
    }
  }
}
