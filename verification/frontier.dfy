/**
 The open list and its selection policy: entries are ordered by descending
 `f = g + h` and the last entry, one with the lowest `f`, is popped.
 `std::sort` is not stable and promises only a sorted permutation; it is
 modelled here by an insertion sort, and no contract below depends on how
 that sort orders entries of equal `f`.
 */
module Frontier {
  import opened RouteModel

  /** Node `n` has a `g` and an `h` value. */
  predicate HasScore(g: seq<real>, h: seq<real>, n: NodeId) {
    n < |g| && n < |h|
  }

  /** Every entry of `s` has a `g` and an `h` value. */
  ghost predicate Scored(g: seq<real>, h: seq<real>, s: seq<NodeId>) {
    forall i :: 0 <= i < |s| ==> HasScore(g, h, s[i])
  }

  /** Estimated total cost `g + h` of node `n`. */
  function FValue(g: seq<real>, h: seq<real>, n: NodeId): real
    requires HasScore(g, h, n)
  {
    g[n] + h[n]
  }

  /** The comparator handed to the sort: `a` goes before `b` when its `f` is larger. */
  predicate Compare(g: seq<real>, h: seq<real>, a: NodeId, b: NodeId)
    requires HasScore(g, h, a) && HasScore(g, h, b)
  {
    FValue(g, h, a) > FValue(g, h, b)
  }

  /** No entry of `s` compares before an entry that precedes it. */
  ghost predicate SortedDescending(g: seq<real>, h: seq<real>, s: seq<NodeId>)
    requires Scored(g, h, s)
  {
    forall i, j :: 0 <= i < j < |s| ==> !Compare(g, h, s[j], s[i])
  }

  /**
   `Compare` is a strict weak ordering (irreflexive, transitive, with
   transitive incomparability), which is what `std::sort` requires of it.
   */
  lemma CompareIsStrictWeakOrder(g: seq<real>, h: seq<real>, a: NodeId, b: NodeId, c: NodeId)
    requires HasScore(g, h, a) && HasScore(g, h, b) && HasScore(g, h, c)
    ensures !Compare(g, h, a, a)
    ensures Compare(g, h, a, b) && Compare(g, h, b, c) ==> Compare(g, h, a, c)
    ensures !Compare(g, h, a, b) && !Compare(g, h, b, a) && !Compare(g, h, b, c) && !Compare(g, h, c, b)
            ==> !Compare(g, h, a, c) && !Compare(g, h, c, a)
  {
  }

  /** An entry that no entry of a descending list compares before may go in front of it. */
  lemma PrependKeepsSorted(g: seq<real>, h: seq<real>, x: NodeId, s: seq<NodeId>)
    requires HasScore(g, h, x) && Scored(g, h, s) && SortedDescending(g, h, s)
    requires forall k :: 0 <= k < |s| ==> !Compare(g, h, s[k], x)
    ensures Scored(g, h, [x] + s) && SortedDescending(g, h, [x] + s)
  {
    var r := [x] + s;
    forall i, j | 0 <= i < j < |r|
      ensures !Compare(g, h, r[j], r[i])
    {
      assert r[j] == s[j - 1];
      if i > 0 {
        assert r[i] == s[i - 1];
      }
    }
  }

  /** Inserts `x` into the descending list `s` in front of the first entry it compares before. */
  function Insert(g: seq<real>, h: seq<real>, x: NodeId, s: seq<NodeId>): (r: seq<NodeId>)
    requires HasScore(g, h, x) && Scored(g, h, s) && SortedDescending(g, h, s)
    ensures |r| == |s| + 1
    ensures multiset(r) == multiset(s) + multiset{x}
    ensures forall k :: 0 <= k < |r| ==> r[k] == x || r[k] in s
    ensures Scored(g, h, r) && SortedDescending(g, h, r)
    decreases |s|
  {
    if s == [] || !Compare(g, h, s[0], x) then
      assert forall k :: 0 <= k < |s| ==> !Compare(g, h, s[k], x) by {
        forall k | 0 < k < |s|
          ensures !Compare(g, h, s[k], x)
        {
          assert !Compare(g, h, s[k], s[0]);
        }
      }
      PrependKeepsSorted(g, h, x, s);
      [x] + s
    else
      var tail := s[1..];
      assert s == [s[0]] + tail;
      var t := Insert(g, h, x, tail);
      assert forall k :: 0 <= k < |t| ==> !Compare(g, h, t[k], s[0]) by {
        forall k | 0 <= k < |t|
          ensures !Compare(g, h, t[k], s[0])
        {
          if t[k] != x {
            var j :| 0 <= j < |tail| && tail[j] == t[k];
            assert s[j + 1] == t[k];
          }
        }
      }
      PrependKeepsSorted(g, h, s[0], t);
      assert forall k :: 0 <= k < |t| ==> t[k] == x || t[k] in s;
      [s[0]] + t
  }

  /** Sorts the open list by descending `f`. */
  function Sort(g: seq<real>, h: seq<real>, s: seq<NodeId>): (r: seq<NodeId>)
    requires Scored(g, h, s)
    ensures |r| == |s|
    ensures multiset(r) == multiset(s)
    ensures forall k :: 0 <= k < |r| ==> r[k] in s
    ensures Scored(g, h, r) && SortedDescending(g, h, r)
    decreases |s|
  {
    if s == [] then
      []
    else
      assert s == [s[0]] + s[1..];
      Insert(g, h, s[0], Sort(g, h, s[1..]))
  }

  /** The node `NextNode` returns and the open list it leaves behind. */
  datatype Pick = Pick(node: NodeId, rest: seq<NodeId>)

  /**
   Sorts the open list, then removes and returns its last entry: a node whose
   `f` is no larger than that of any entry. Exactly one occurrence of it
   leaves the list; the rest stays in descending order.
   */
  function NextNode(g: seq<real>, h: seq<real>, open: seq<NodeId>): (pick: Pick)
    requires |open| > 0 && Scored(g, h, open)
    ensures pick.node in open && HasScore(g, h, pick.node)
    ensures forall k :: 0 <= k < |open| ==> FValue(g, h, pick.node) <= FValue(g, h, open[k])
    ensures multiset(pick.rest) + multiset{pick.node} == multiset(open)
    ensures |pick.rest| == |open| - 1
    ensures forall k :: 0 <= k < |pick.rest| ==> pick.rest[k] in open
    ensures Scored(g, h, pick.rest) && SortedDescending(g, h, pick.rest)
  {
    var sorted := Sort(g, h, open);
    var last := |sorted| - 1;
    assert sorted == sorted[..last] + [sorted[last]];
    LastIsLowest(g, h, open, sorted);
    Pick(sorted[last], sorted[..last])
  }

  /** The last entry of a descending permutation of `open` has the lowest `f` of `open`. */
  lemma LastIsLowest(g: seq<real>, h: seq<real>, open: seq<NodeId>, sorted: seq<NodeId>)
    requires |sorted| > 0 && Scored(g, h, open) && Scored(g, h, sorted)
    requires multiset(sorted) == multiset(open) && SortedDescending(g, h, sorted)
    ensures forall k :: 0 <= k < |open| ==> FValue(g, h, sorted[|sorted| - 1]) <= FValue(g, h, open[k])
  {
    forall k | 0 <= k < |open|
      ensures FValue(g, h, sorted[|sorted| - 1]) <= FValue(g, h, open[k])
    {
      assert open[k] in multiset(open);
      assert open[k] in sorted;
      var j :| 0 <= j < |sorted| && sorted[j] == open[k];
      if j < |sorted| - 1 {
        assert !Compare(g, h, sorted[|sorted| - 1], sorted[j]);
      }
    }
  }
}
