/** Maximum bipartite matching: the depth-first augmenting search that pairs
    elements with matchers.

    Left nodes are elements, right nodes are matchers.  `left` and `right`
    hold, for every node, the partner it is linked to, or UNUSED. */
module Matching {

  const UNUSED := -1

  /** The connectivity matrix, one row per left node. */
  datatype MatchMatrix = MatchMatrix(lhsSize: nat, rhsSize: nat, matched: seq<seq<bool>>) {

    ghost predicate Valid() {
      |matched| == lhsSize && forall l :: 0 <= l < lhsSize ==> |matched[l]| == rhsSize
    }

    predicate HasEdge(l: nat, r: nat)
      requires Valid() && l < lhsSize && r < rhsSize
    {
      matched[l][r]
    }
  }

  type Graph = g: MatchMatrix | g.Valid() witness MatchMatrix(0, 0, [])

  // ----- matchings as values -----

  /** `m` pairs some left nodes with right nodes along edges, no right node twice. */
  ghost predicate IsMatching(g: Graph, m: map<nat, nat>) {
    && (forall l <- m :: l < g.lhsSize && m[l] < g.rhsSize && g.HasEdge(l, m[l]))
    && (forall l1, l2 :: l1 in m && l2 in m && m[l1] == m[l2] ==> l1 == l2)
  }

  ghost predicate Below(m: map<nat, nat>, k: nat) {
    forall l <- m :: l < k
  }

  /** No matching that uses only the left nodes below `k` has more than `n` edges. */
  ghost predicate Bound(g: Graph, k: nat, n: nat) {
    forall m: map<nat, nat> :: IsMatching(g, m) && Below(m, k) ==> |m| <= n
  }

  /** The matching recorded in a `left` vector. */
  ghost function Links(left: seq<int>): (m: map<nat, nat>)
    requires forall l :: 0 <= l < |left| ==> left[l] >= UNUSED
  {
    map l: nat | l < |left| && left[l] != UNUSED :: left[l] as nat
  }

  // ----- the two mutually inverse vectors -----

  /** Every link is an edge, and the vectors undo each other, except that the
      entry of `right` at `hole` may be stale. */
  ghost predicate Linked(g: Graph, left: seq<int>, right: seq<int>, hole: int) {
    && |left| == g.lhsSize
    && |right| == g.rhsSize
    && (forall l :: 0 <= l < |left| && left[l] != UNUSED ==>
         0 <= left[l] < g.rhsSize && g.HasEdge(l, left[l]) && right[left[l]] == l)
    && (forall r :: 0 <= r < |right| && right[r] != UNUSED ==> 0 <= right[r] < g.lhsSize)
    && (forall r :: 0 <= r < |right| && r != hole && right[r] != UNUSED ==> left[right[r]] == r)
  }

  /** The mutual-inverse invariant the class documents. */
  ghost predicate MutuallyLinked(g: Graph, left: seq<int>, right: seq<int>) {
    Linked(g, left, right, UNUSED)
  }

  /** All right neighbours of left node `l` are in `seen`. */
  ghost predicate NeighboursSeen(g: Graph, l: nat, seen: seq<bool>)
    requires l < g.lhsSize && |seen| == g.rhsSize
  {
    forall r :: 0 <= r < g.rhsSize && g.HasEdge(l, r) ==> seen[r]
  }

  /** Every right node marked since `before` is linked, and to a left node all
      of whose neighbours are marked: the search has nothing left to try there. */
  ghost predicate Explored(g: Graph, right: seq<int>, before: seq<bool>, seen: seq<bool>)
    requires |right| == |before| == |seen| == g.rhsSize
  {
    forall r :: 0 <= r < g.rhsSize && seen[r] && !before[r] ==>
      0 <= right[r] < g.lhsSize && NeighboursSeen(g, right[r], seen)
  }

  ghost predicate Grows(before: seq<bool>, seen: seq<bool>)
    requires |before| == |seen|
  {
    forall r :: 0 <= r < |seen| && before[r] ==> seen[r]
  }

  ghost function Unseen(seen: seq<bool>): set<nat> {
    set r: nat | r < |seen| && !seen[r]
  }

  /** What a successful search from `l` did: one chain of links was moved,
      starting at `l` and running only through right nodes not marked before. */
  ghost predicate Augmented(g: Graph, l: nat, before: seq<bool>, left0: seq<int>, right0: seq<int>,
                            left: seq<int>, right: seq<int>)
    requires |left0| == |left| == g.lhsSize && |right0| == |right| == |before| == g.rhsSize
    requires l < g.lhsSize
  {
    && Linked(g, left, right, left0[l])
    && 0 <= left[l] < g.rhsSize && !before[left[l]]
    && (forall x :: 0 <= x < |left| && x != l ==> (left[x] == UNUSED <==> left0[x] == UNUSED))
    && (forall x :: 0 <= x < |left| && x != l && 0 <= left0[x] < g.rhsSize && before[left0[x]] ==> left[x] == left0[x])
    && (forall r :: 0 <= r < |right| && before[r] ==> right[r] == right0[r])
  }

  class MaxBipartiteMatchState {
    const graph: Graph
    const left: array<int>
    const right: array<int>

    ghost predicate Valid()
      reads left, right
    {
      left != right && MutuallyLinked(graph, left[..], right[..])
    }

    constructor (g: Graph)
      ensures graph == g && fresh(left) && fresh(right) && Valid()
      ensures forall l :: 0 <= l < left.Length ==> left[l] == UNUSED
    {
      graph := g;
      left := new int[g.lhsSize](_ => UNUSED);
      right := new int[g.rhsSize](_ => UNUSED);
    }

    /** Depth-first search from left node `ilhs` for a free right node.  On
        failure nothing moved and the marked region is a dead end; on success
        a chain of links starting at `ilhs` moved. */
    method TryAugment(ilhs: nat, seen: array<bool>) returns (found: bool)
      requires Valid() && ilhs < graph.lhsSize
      requires seen.Length == graph.rhsSize
      requires left[ilhs] != UNUSED ==> seen[left[ilhs]]
      modifies left, right, seen
      ensures Grows(old(seen[..]), seen[..])
      ensures !found ==> left[..] == old(left[..]) && right[..] == old(right[..])
      ensures !found ==> NeighboursSeen(graph, ilhs, seen[..])
      ensures !found ==> Explored(graph, right[..], old(seen[..]), seen[..])
      ensures found ==> Augmented(graph, ilhs, old(seen[..]), old(left[..]), old(right[..]), left[..], right[..])
      decreases Unseen(seen[..])
    {
      ghost var before, left0, right0 := seen[..], left[..], right[..];
      for irhs := 0 to graph.rhsSize
        invariant left[..] == left0 && right[..] == right0
        invariant Grows(before, seen[..])
        invariant Explored(graph, right0, before, seen[..])
        invariant forall r :: 0 <= r < irhs && graph.HasEdge(ilhs, r) ==> seen[r]
      {
        if seen[irhs] { continue; }
        if !graph.HasEdge(ilhs, irhs) { continue; }
        ghost var marked := seen[..];
        seen[irhs] := true;
        assert Unseen(seen[..]) < Unseen(before) by {
          assert irhs in Unseen(before) && irhs !in Unseen(seen[..]);
        }
        ghost var entered := seen[..];
        assert entered == marked[irhs := true];
        found := right[irhs] == UNUSED;
        if !found {
          found := TryAugment(right[irhs], seen);
          if found {
            AugmentStep(graph, ilhs, right0[irhs], irhs, before, entered, left0, right0, left[..], right[..]);
          } else {
            ExploreStep(graph, irhs, right0, before, marked, entered, seen[..]);
          }
        }
        if found {
          left[ilhs] := irhs;
          right[irhs] := ilhs;
          return true;
        }
      }
      return false;
    }

    /** One pass over the left nodes.  The answer is a matching, listed by left
        node, and no matching of the graph has more edges. */
    method Compute() returns (result: seq<(nat, nat)>)
      requires Valid()
      requires forall l :: 0 <= l < left.Length ==> left[l] == UNUSED
      modifies left, right
      ensures Valid()
      ensures forall i, j :: 0 <= i < j < |result| ==> result[i].0 < result[j].0
      ensures PairsMap(result) == Links(left[..]) && |PairsMap(result)| == |result|
      ensures IsMatching(graph, PairsMap(result))
      ensures forall m: map<nat, nat> :: IsMatching(graph, m) ==> |m| <= |result|
    {
      assert Links(left[..]) == map[];
      BoundZero(graph);
      for ilhs := 0 to graph.lhsSize
        invariant Valid()
        invariant UnusedFrom(left[..], ilhs)
        invariant Bound(graph, ilhs, |Links(left[..])|)
      {
        Search(ilhs);
      }
      result := Collect();
      LinksAreMatching(graph, left[..], right[..]);
      assert forall m: map<nat, nat> :: IsMatching(graph, m) ==> Below(m, graph.lhsSize);
    }

    /** The body of the pass: one search from `ilhs` with a fresh marking. */
    method Search(ilhs: nat)
      requires Valid() && ilhs < graph.lhsSize
      requires UnusedFrom(left[..], ilhs)
      requires Bound(graph, ilhs, |Links(left[..])|)
      modifies left, right
      ensures Valid()
      ensures UnusedFrom(left[..], ilhs + 1)
      ensures Bound(graph, ilhs + 1, |Links(left[..])|)
    {
      // the check made at the head of every pass never fires
      assert left[ilhs] == UNUSED;
      var seen := new bool[graph.rhsSize](_ => false);
      ghost var left0, right0, before := left[..], right[..], seen[..];
      var found := TryAugment(ilhs, seen);
      SearchDone(graph, ilhs, found, before, left0, right0, seen[..], left[..], right[..]);
    }

    /** The links as a list of pairs, in the order of the left nodes. */
    method Collect() returns (result: seq<(nat, nat)>)
      requires forall l :: 0 <= l < left.Length ==> left[l] >= UNUSED
      ensures forall i, j :: 0 <= i < j < |result| ==> result[i].0 < result[j].0
      ensures PairsMap(result) == Links(left[..]) && |PairsMap(result)| == |result|
    {
      result := [];
      assert Links(left[..0]) == map[];
      for ilhs := 0 to left.Length
        invariant forall i :: 0 <= i < |result| ==> result[i].0 < ilhs
        invariant forall i, j :: 0 <= i < j < |result| ==> result[i].0 < result[j].0
        invariant |PairsMap(result)| == |result|
        invariant PairsMap(result) == Links(left[..ilhs])
      {
        var irhs := left[ilhs];
        assert left[..ilhs + 1] == left[..ilhs] + [irhs];
        LinksSnoc(left[..ilhs], irhs);
        if irhs == UNUSED { continue; }
        PairsSnoc(result, ilhs, irhs);
        result := result + [(ilhs, irhs)];
      }
      assert left[..left.Length] == left[..];
    }
  }

  // ----- one step of the search -----

  /** A failed recursive search extends the explored region by the node it was entered through. */
  lemma ExploreStep(g: Graph, irhs: nat, right: seq<int>, before: seq<bool>, marked: seq<bool>,
                    entered: seq<bool>, seen: seq<bool>)
    requires |right| == |before| == |marked| == |entered| == |seen| == g.rhsSize
    requires irhs < g.rhsSize && entered == marked[irhs := true]
    requires Grows(before, marked) && Explored(g, right, before, marked)
    requires Grows(entered, seen) && Explored(g, right, entered, seen)
    requires 0 <= right[irhs] < g.lhsSize && NeighboursSeen(g, right[irhs], seen)
    ensures Grows(before, seen) && Explored(g, right, before, seen)
  {
    forall r | 0 <= r < g.rhsSize && seen[r] && !before[r]
      ensures 0 <= right[r] < g.lhsSize && NeighboursSeen(g, right[r], seen)
    {
      if r != irhs && marked[r] {
        assert NeighboursSeen(g, right[r], marked);
        assert Grows(marked, seen);
      }
    }
  }

  /** Linking `l` to `irhs` after its former partner `l2` moved on completes the chain. */
  lemma AugmentStep(g: Graph, l: nat, l2: nat, irhs: nat, before: seq<bool>, entered: seq<bool>,
                    left0: seq<int>, right0: seq<int>, left: seq<int>, right: seq<int>)
    requires |left0| == |left| == g.lhsSize && |right0| == |right| == |before| == |entered| == g.rhsSize
    requires l < g.lhsSize && l2 < g.lhsSize && irhs < g.rhsSize
    requires MutuallyLinked(g, left0, right0)
    requires g.HasEdge(l, irhs) && right0[irhs] == l2
    requires left0[l] != UNUSED ==> before[left0[l]]
    requires Grows(before, entered) && entered[irhs] && !before[irhs]
    requires Augmented(g, l2, entered, left0, right0, left, right)
    ensures Augmented(g, l, before, left0, right0, left[l := irhs], right[irhs := l])
  {
    assert left0[l2] == irhs;
    assert l != l2;
    assert left[l] == left0[l];
  }

  ghost predicate UnusedFrom(left: seq<int>, k: nat) {
    forall l :: k <= l < |left| ==> left[l] == UNUSED
  }

  /** Whether or not the search from `l` succeeds, the links stay a largest
      matching, now of the left nodes up to `l`. */
  lemma SearchDone(g: Graph, l: nat, found: bool, before: seq<bool>, left0: seq<int>, right0: seq<int>,
                   seen: seq<bool>, left: seq<int>, right: seq<int>)
    requires |left0| == |left| == g.lhsSize && |right0| == |right| == |before| == |seen| == g.rhsSize
    requires MutuallyLinked(g, left0, right0)
    requires l < g.lhsSize && UnusedFrom(left0, l)
    requires Bound(g, l, |Links(left0)|)
    requires forall r :: 0 <= r < |before| ==> !before[r]
    requires found ==> Augmented(g, l, before, left0, right0, left, right)
    requires !found ==> left == left0 && right == right0
    requires !found ==> NeighboursSeen(g, l, seen) && Explored(g, right, before, seen)
    ensures MutuallyLinked(g, left, right)
    ensures UnusedFrom(left, l + 1)
    ensures Bound(g, l + 1, |Links(left)|)
  {
    if found {
      LinksGrow(left0, left, l);
      BoundSuccess(g, l, |Links(left0)|);
    } else {
      BoundFailure(g, l, |Links(left)|, left, right, before, seen);
    }
  }

  // ----- from the vectors to matchings -----

  /** The pairs of the answer, as a map from left node to right node. */
  ghost function PairsMap(pairs: seq<(nat, nat)>): map<nat, nat> {
    if pairs == [] then map[]
    else PairsMap(pairs[..|pairs| - 1])[pairs[|pairs| - 1].0 := pairs[|pairs| - 1].1]
  }

  lemma PairsSnoc(pairs: seq<(nat, nat)>, l: nat, r: nat)
    requires l !in PairsMap(pairs)
    ensures PairsMap(pairs + [(l, r)]) == PairsMap(pairs)[l := r]
    ensures |PairsMap(pairs + [(l, r)])| == |PairsMap(pairs)| + 1
  {
    assert (pairs + [(l, r)])[..|pairs|] == pairs;
    assert PairsMap(pairs)[l := r].Keys == PairsMap(pairs).Keys + {l};
    assert |PairsMap(pairs).Keys + {l}| == |PairsMap(pairs).Keys| + 1;
  }

  lemma LinksSnoc(left: seq<int>, r: int)
    requires forall l :: 0 <= l < |left| ==> left[l] >= UNUSED
    requires r >= UNUSED
    ensures Links(left + [r]) == if r == UNUSED then Links(left) else Links(left)[|left| := r]
  {
  }

  lemma LinksAreMatching(g: Graph, left: seq<int>, right: seq<int>)
    requires MutuallyLinked(g, left, right)
    ensures IsMatching(g, Links(left))
  {
  }

  lemma LinksGrow(left0: seq<int>, left: seq<int>, l: nat)
    requires |left0| == |left| && l < |left|
    requires forall x :: 0 <= x < |left| ==> left0[x] >= UNUSED && left[x] >= UNUSED
    requires left0[l] == UNUSED && left[l] != UNUSED
    requires forall x :: 0 <= x < |left| && x != l ==> (left[x] == UNUSED <==> left0[x] == UNUSED)
    ensures |Links(left)| == |Links(left0)| + 1
  {
    assert Links(left).Keys == Links(left0).Keys + {l};
    assert |Links(left).Keys| == |Links(left0).Keys| + 1;
  }

  // ----- why one pass is enough -----

  lemma BoundZero(g: Graph)
    ensures Bound(g, 0, 0)
  {
    forall m: map<nat, nat> | IsMatching(g, m) && Below(m, 0)
      ensures |m| <= 0
    {
      assert m.Keys == {};
    }
  }

  /** One more left node adds at most one edge to a largest matching. */
  lemma BoundSuccess(g: Graph, k: nat, n: nat)
    requires Bound(g, k, n)
    ensures Bound(g, k + 1, n + 1)
  {
    forall m: map<nat, nat> | IsMatching(g, m) && Below(m, k + 1)
      ensures |m| <= n + 1
    {
      var m' := m - {k};
      assert IsMatching(g, m') && Below(m', k);
      assert m.Keys <= m'.Keys + {k};
      CardSubset(m.Keys, m'.Keys + {k});
      assert |m| == |m.Keys| && |m'| == |m'.Keys|;
    }
  }

  lemma CardSubset(a: set<nat>, b: set<nat>)
    requires a <= b
    ensures |a| <= |b|
  {
    if a != {} {
      var x :| x in a;
      CardSubset(a - {x}, b - {x});
    }
  }

  /** The image of a set of left nodes under an injective map is as large as the set. */
  lemma {:induction false} CardImage(m: map<nat, nat>, keys: set<nat>, image: set<nat>)
    requires keys <= m.Keys
    requires forall l1, l2 :: l1 in m && l2 in m && m[l1] == m[l2] ==> l1 == l2
    requires forall l <- keys :: m[l] in image
    ensures |keys| <= |image|
  {
    if keys != {} {
      var l :| l in keys;
      CardImage(m, keys - {l}, image - {m[l]});
    }
  }

  /** Every marked node is linked, and to a left node with all its neighbours marked. */
  ghost predicate DeadEnd(g: Graph, right: seq<int>, seen: seq<bool>)
    requires |right| == |seen| == g.rhsSize
  {
    forall r :: 0 <= r < g.rhsSize && seen[r] ==>
      0 <= right[r] < g.lhsSize && NeighboursSeen(g, right[r], seen)
  }

  /** The left nodes linked into the marked region. */
  ghost function Inner(left: seq<int>, seen: seq<bool>): set<nat>
    requires forall l :: 0 <= l < |left| ==> UNUSED <= left[l] < |seen|
  {
    set l: nat | l < |left| && left[l] != UNUSED && seen[left[l]]
  }

  /** The left nodes that `m` pairs outside the marked region. */
  ghost function Outer(g: Graph, m: map<nat, nat>, seen: seq<bool>): set<nat>
    requires IsMatching(g, m) && |seen| == g.rhsSize
  {
    set l | l in m && !seen[m[l]]
  }

  /** Keep the links into the marked region, and take `m` elsewhere. */
  ghost function Swapped(g: Graph, left: seq<int>, seen: seq<bool>, m: map<nat, nat>): map<nat, nat>
    requires IsMatching(g, m) && |seen| == g.rhsSize
    requires forall l :: 0 <= l < |left| ==> UNUSED <= left[l] < |seen|
  {
    map l | l in Inner(left, seen) + Outer(g, m, seen) ::
      if l in Inner(left, seen) then left[l] as nat else m[l]
  }

  /** Nodes that `m` pairs outside the region are neither `k` nor linked into it. */
  lemma OuterAvoids(g: Graph, k: nat, left: seq<int>, right: seq<int>, seen: seq<bool>, m: map<nat, nat>)
    requires k < g.lhsSize && |seen| == g.rhsSize
    requires MutuallyLinked(g, left, right)
    requires UnusedFrom(left, k)
    requires NeighboursSeen(g, k, seen)
    requires DeadEnd(g, right, seen)
    requires IsMatching(g, m) && Below(m, k + 1)
    ensures Inner(left, seen) !! Outer(g, m, seen)
    ensures IsMatching(g, Swapped(g, left, seen, m)) && Below(Swapped(g, left, seen, m), k)
  {
    forall l | l in Inner(left, seen)
      ensures l !in Outer(g, m, seen)
    {
      assert NeighboursSeen(g, right[left[l]], seen);
    }
  }

  /** The exchange loses at most one edge of `m` per marked node and gains one for each. */
  lemma SwapCount(g: Graph, left: seq<int>, right: seq<int>, seen: seq<bool>, m: map<nat, nat>)
    requires |seen| == g.rhsSize
    requires MutuallyLinked(g, left, right)
    requires DeadEnd(g, right, seen)
    requires IsMatching(g, m) && Inner(left, seen) !! Outer(g, m, seen)
    ensures |m| <= |Swapped(g, left, seen, m)|
  {
    var marked := set r: nat | r < |seen| && seen[r];
    MarkedAreLinked(g, left, right, seen, marked);
    PairedInside(g, seen, m, marked);
    CountParts(m.Keys, Outer(g, m, seen), Inner(left, seen));
    assert Swapped(g, left, seen, m).Keys == Inner(left, seen) + Outer(g, m, seen);
  }

  lemma CountParts(keys: set<nat>, outer: set<nat>, inner: set<nat>)
    requires outer <= keys && inner !! outer
    requires |keys - outer| <= |inner|
    ensures |keys| <= |inner + outer|
  {
    assert keys == (keys - outer) + outer;
  }

  lemma PairedInside(g: Graph, seen: seq<bool>, m: map<nat, nat>, marked: set<nat>)
    requires |seen| == g.rhsSize && IsMatching(g, m)
    requires marked == set r: nat | r < |seen| && seen[r]
    ensures |m.Keys - Outer(g, m, seen)| <= |marked|
  {
    CardImage(m, m.Keys - Outer(g, m, seen), marked);
  }

  lemma MarkedAreLinked(g: Graph, left: seq<int>, right: seq<int>, seen: seq<bool>, marked: set<nat>)
    requires |seen| == g.rhsSize
    requires MutuallyLinked(g, left, right)
    requires DeadEnd(g, right, seen)
    requires marked == set r: nat | r < |seen| && seen[r]
    ensures |marked| <= |Inner(left, seen)|
  {
    forall r | r in marked
      ensures 0 <= right[r] < g.lhsSize && left[right[r]] == r
    {
    }
    CardImage(map r | r in marked :: right[r] as nat, marked, Inner(left, seen));
  }

  /** When the search from left node `k` fails, its marked region `seen` proves
      that `k` adds nothing: any matching on the nodes up to `k` can be traded
      for one below `k` that is at least as large. */
  lemma BoundFailure(g: Graph, k: nat, n: nat, left: seq<int>, right: seq<int>,
                     before: seq<bool>, seen: seq<bool>)
    requires k < g.lhsSize && |before| == |seen| == g.rhsSize
    requires MutuallyLinked(g, left, right)
    requires UnusedFrom(left, k)
    requires Bound(g, k, n)
    requires NeighboursSeen(g, k, seen)
    requires (forall r :: 0 <= r < |before| ==> !before[r]) && Explored(g, right, before, seen)
    ensures Bound(g, k + 1, n)
  {
    forall m: map<nat, nat> | IsMatching(g, m) && Below(m, k + 1)
      ensures |m| <= n
    {
      OuterAvoids(g, k, left, right, seen, m);
      SwapCount(g, left, right, seen, m);
    }
  }
}
