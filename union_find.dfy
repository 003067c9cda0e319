/** The connectivity the percolation grid obtains from the union-find library
    (edu.princeton.cs.algs4.WeightedQuickUnionUF). Only what the library
    provides is modelled: a partition of the elements 0 .. count-1 that
    `Union` coarsens and `Find` names. The partition is represented by one
    component label per element; the library's weighted trees are not
    modelled. */
module UnionFind {

  /** p and q are elements carrying the same component label. */
  predicate SameLabel(id: seq<nat>, p: int, q: int) {
    0 <= p < |id| && 0 <= q < |id| && id[p] == id[q]
  }

  /** The relation of `after` is that of `before` with the components of p
      and q merged: the equivalence closure of the old relation plus (p, q). */
  ghost predicate Merged(before: seq<nat>, after: seq<nat>, p: int, q: int) {
    |after| == |before| &&
    forall x, y :: 0 <= x < |before| && 0 <= y < |before| ==>
      (SameLabel(after, x, y) <==>
         SameLabel(before, x, y)
         || (SameLabel(before, x, p) && SameLabel(before, y, q))
         || (SameLabel(before, x, q) && SameLabel(before, y, p)))
  }

  class UnionFind {
    var id: seq<nat>

    /** Every label is an element that labels itself: the representative of its component. */
    ghost predicate Valid()
      reads this
    {
      forall i :: 0 <= i < |id| ==> id[i] < |id| && id[id[i]] == id[i]
    }

    /** p and q are in the same component. */
    predicate Connected(p: int, q: int)
      reads this
    {
      SameLabel(id, p, q)
    }

    /** count elements, each in a component of its own. */
    constructor (count: nat)
      ensures Valid() && |id| == count
      ensures forall p, q :: Connected(p, q) <==> 0 <= p < count && p == q
    {
      id := seq(count, i => i);
    }

    /** The representative of p's component. */
    function Find(p: int): (root: int)
      requires Valid() && 0 <= p < |id|
      reads this
      ensures 0 <= root < |id| && Connected(p, root) && id[root] == root
    {
      id[p]
    }

    /** Merges the components of p and q. */
    method Union(p: int, q: int)
      requires Valid() && 0 <= p < |id| && 0 <= q < |id|
      modifies this
      ensures Valid() && Merged(old(id), id, p, q)
    {
      var rootP := Find(p);
      var rootQ := Find(q);
      var labels := id;
      id := seq(|labels|, i requires 0 <= i < |labels| => if labels[i] == rootP then rootQ as nat else labels[i]);
      forall x, y | 0 <= x < |labels| && 0 <= y < |labels|
        ensures SameLabel(id, x, y) <==>
                  SameLabel(labels, x, y)
                  || (SameLabel(labels, x, p) && SameLabel(labels, y, q))
                  || (SameLabel(labels, x, q) && SameLabel(labels, y, p))
      {
        assert id[x] == if labels[x] == rootP then rootQ else labels[x];
        assert id[y] == if labels[y] == rootP then rootQ else labels[y];
      }
    }
  }
}
