// gmock-matchers.cc: the maximum bipartite matching behind UnorderedElementsAre,
// IsSupersetOf and IsSubsetOf.
//
// The search keeps two vectors that mirror one another. The proof that one pass over the left
// nodes is enough follows Koenig: every failed search leaves behind a closed set of right nodes,
// no later augmentation enters it, and at the end those sets give a vertex cover exactly as
// large as the matching.
module BipartiteMatching {
  import opened Common

  /** Which element (left) is accepted by which matcher (right). */
  datatype MatchMatrix = MatchMatrix(lhsSize: nat, rhsSize: nat, edges: set<(int, int)>) {
    predicate HasEdge(l: int, r: int) {
      0 <= l < lhsSize && 0 <= r < rhsSize && (l, r) in edges
    }
  }

  const UNUSED := -1

  // ---- reference definitions, independent of the search ----

  ghost predicate IsMatching(g: MatchMatrix, m: set<(int, int)>) {
    && (forall p :: p in m ==> g.HasEdge(p.0, p.1))
    && (forall p, q :: p in m && q in m && (p.0 == q.0 || p.1 == q.1) ==> p == q)
  }

  ghost predicate IsMaximumMatching(g: MatchMatrix, m: set<(int, int)>) {
    && IsMatching(g, m)
    && (forall other :: IsMatching(g, other) ==> |other| <= |m|)
  }

  ghost predicate IsVertexCover(g: MatchMatrix, ls: set<int>, rs: set<int>) {
    forall l, r :: g.HasEdge(l, r) ==> l in ls || r in rs
  }

  ghost function LeftNodes(m: set<(int, int)>): set<int> {
    set p | p in m :: p.0
  }

  ghost function RightNodes(m: set<(int, int)>): set<int> {
    set p | p in m :: p.1
  }

  ghost predicate CoversAllLeft(g: MatchMatrix, m: set<(int, int)>) {
    forall l :: 0 <= l < g.lhsSize ==> l in LeftNodes(m)
  }

  ghost predicate CoversAllRight(g: MatchMatrix, m: set<(int, int)>) {
    forall r :: 0 <= r < g.rhsSize ==> r in RightNodes(m)
  }

  /** No matching is larger than any vertex cover. */
  lemma WeakDuality(g: MatchMatrix, m: set<(int, int)>, ls: set<int>, rs: set<int>)
    requires IsMatching(g, m) && IsVertexCover(g, ls, rs)
    ensures |m| <= |ls| + |rs|
  {
    var onLeft := set p | p in m && p.0 in ls;
    var onRight := m - onLeft;
    InjectiveImage(onLeft, ls, (p: (int, int)) => p.0);
    InjectiveImage(onRight, rs, (p: (int, int)) => p.1);
    assert m == onLeft + onRight;
  }

  // ---- the state of the search ----

  ghost predicate Shape(g: MatchMatrix, left: seq<int>, right: seq<int>) {
    && |left| == g.lhsSize && |right| == g.rhsSize
    && (forall l :: 0 <= l < |left| ==> UNUSED <= left[l] < g.rhsSize)
    && (forall r :: 0 <= r < |right| ==> UNUSED <= right[r] < g.lhsSize)
  }

  /**
   * The vectors refer to each other, except that right[stale] may still name a left node that
   * has moved on: the transient state inside an augmentation. UNUSED as stale means no exception.
   */
  ghost predicate MutualExcept(g: MatchMatrix, left: seq<int>, right: seq<int>, stale: int) {
    && Shape(g, left, right)
    && (forall l :: 0 <= l < |left| && left[l] != UNUSED ==> right[left[l]] == l && g.HasEdge(l, left[l]))
    && (forall r :: 0 <= r < |right| && r != stale && right[r] != UNUSED ==> left[right[r]] == r)
  }

  ghost predicate Mutual(g: MatchMatrix, left: seq<int>, right: seq<int>) {
    MutualExcept(g, left, right, UNUSED)
  }

  ghost predicate NeighboursIn(g: MatchMatrix, l: int, rs: set<int>) {
    forall r :: g.HasEdge(l, r) ==> r in rs
  }

  /** Every node of rs is matched, and its partner only has edges back into rs. */
  ghost predicate ClosedUnder(g: MatchMatrix, right: seq<int>, rs: set<int>, region: set<int>) {
    forall r :: r in rs ==> 0 <= r < |right| && right[r] != UNUSED && NeighboursIn(g, right[r], region)
  }

  ghost predicate Closed(g: MatchMatrix, right: seq<int>, rs: set<int>) {
    ClosedUnder(g, right, rs, rs)
  }

  ghost function Marked(seen: seq<bool>): set<int> {
    set r | 0 <= r < |seen| && seen[r]
  }

  ghost function Unmarked(seen: seq<bool>): set<int> {
    set r | 0 <= r < |seen| && !seen[r]
  }

  /** The pairs recorded in left, as a set of edges. */
  ghost function Pairs(left: seq<int>): set<(int, int)> {
    set l | 0 <= l < |left| && left[l] != UNUSED :: (l, left[l])
  }

  lemma PairsAreMatching(g: MatchMatrix, left: seq<int>, right: seq<int>)
    requires Mutual(g, left, right)
    ensures IsMatching(g, Pairs(left))
  {
  }

  /** A closed set that catches every unmatched left node proves the matching maximum. */
  lemma ClosedSetProvesMaximum(g: MatchMatrix, left: seq<int>, right: seq<int>, dead: set<int>)
    requires Mutual(g, left, right) && Closed(g, right, dead)
    requires forall l :: 0 <= l < |left| && left[l] == UNUSED ==> NeighboursIn(g, l, dead)
    ensures IsMaximumMatching(g, Pairs(left))
    ensures exists ls, rs :: IsVertexCover(g, ls, rs) && |ls| + |rs| == |Pairs(left)|
  {
    var ls := set l | 0 <= l < |left| && left[l] != UNUSED && left[l] !in dead;
    assert IsVertexCover(g, ls, dead) by {
      forall l, r | g.HasEdge(l, r) && l !in ls ensures r in dead {
        if left[l] == UNUSED {
          assert NeighboursIn(g, l, dead);
        } else {
          assert right[left[l]] == l && NeighboursIn(g, right[left[l]], dead);
        }
      }
    }
    CoverIsSmall(g, left, right, dead, ls);
    PairsAreMatching(g, left, right);
    WeakDuality(g, Pairs(left), ls, dead);
    forall other | IsMatching(g, other) ensures |other| <= |Pairs(left)| {
      WeakDuality(g, other, ls, dead);
    }
  }

  lemma CoverIsSmall(g: MatchMatrix, left: seq<int>, right: seq<int>, dead: set<int>, ls: set<int>)
    requires Mutual(g, left, right) && Closed(g, right, dead)
    requires ls == set l | 0 <= l < |left| && left[l] != UNUSED && left[l] !in dead
    ensures |ls| + |dead| <= |Pairs(left)|
  {
    var intoDead := set p | p in Pairs(left) && p.1 in dead;
    LiveNodesAreLinked(left, ls, Pairs(left) - intoDead);
    DeadNodesAreLinked(g, left, right, dead, intoDead);
    assert Pairs(left) == intoDead + (Pairs(left) - intoDead);
  }

  lemma LiveNodesAreLinked(left: seq<int>, ls: set<int>, from: set<(int, int)>)
    requires forall l :: l in ls ==> 0 <= l < |left| && (l, left[l]) in from
    ensures |ls| <= |from|
  {
    InjectiveImage(ls, from, (l: int) requires 0 <= l < |left| => (l, left[l]));
  }

  lemma DeadNodesAreLinked(g: MatchMatrix, left: seq<int>, right: seq<int>, dead: set<int>, into: set<(int, int)>)
    requires Mutual(g, left, right) && Closed(g, right, dead)
    requires into == set p | p in Pairs(left) && p.1 in dead
    ensures |dead| <= |into|
  {
    forall r | r in dead ensures (right[r], r) in into {
      assert left[right[r]] == r;
      assert (right[r], left[right[r]]) in Pairs(left);
    }
    InjectiveImage(dead, into, (r: int) requires 0 <= r < |right| => (right[r], r));
  }

  /**
   * One unit of flow has been added from left node l, re-linking right nodes of `relinked` only;
   * the node l was linked to before, if any, still names l.
   */
  ghost predicate Augmented(g: MatchMatrix, left0: seq<int>, right0: seq<int>, left: seq<int>, right: seq<int>,
                            l: int, relinked: set<int>)
  {
    && 0 <= l < |left0| && |left0| == |left| && |right0| == |right|
    && MutualExcept(g, left, right, left0[l])
    && left[l] in relinked
    && (forall k :: 0 <= k < |left| ==> (left[k] == UNUSED <==> k != l && left0[k] == UNUSED))
    && (forall r :: 0 <= r < |right| && right[r] != right0[r] ==> r in relinked)
  }

  /** Linking l to r completes a path through r, or one through the partner r had before. */
  lemma LinkExtends(g: MatchMatrix, left0: seq<int>, right0: seq<int>, left1: seq<int>, right1: seq<int>,
                    l: int, r: int, relinked: set<int>)
    requires Mutual(g, left0, right0) && g.HasEdge(l, r) && left0[l] != r
    requires r !in relinked && left0[l] !in relinked
    requires if right0[r] == UNUSED then left1 == left0 && right1 == right0
             else Augmented(g, left0, right0, left1, right1, right0[r], relinked)
    ensures Augmented(g, left0, right0, left1[l := r], right1[r := l], l, relinked + {r})
  {
    var was := left0[l];
    var left2, right2 := left1[l := r], right1[r := l];
    if was != UNUSED {
      assert right0[was] == l && right1[was] == l;
    }
    if right0[r] != UNUSED {
      assert left0[right0[r]] == r;
      assert right1[r] == right0[r];
      assert left1[right0[r]] != r;
    }
    assert left1[l] == was;
    forall k | 0 <= k < |left2| && left2[k] != UNUSED ensures right2[left2[k]] == k && g.HasEdge(k, left2[k]) {
      if k != l {
        assert right1[left1[k]] == k;
        assert left1[k] != r;
      }
    }
  }

  lemma AugmentedByMore(g: MatchMatrix, left0: seq<int>, right0: seq<int>, left: seq<int>, right: seq<int>,
                        l: int, relinked: set<int>, more: set<int>)
    requires Augmented(g, left0, right0, left, right, l, relinked) && relinked <= more
    ensures Augmented(g, left0, right0, left, right, l, more)
  {
  }

  // ---- the search ----

  class MaxBipartiteMatchState {
    const graph: MatchMatrix
    const left: array<int>
    const right: array<int>

    ghost predicate Valid()
      reads this, left, right
    {
      left != right && Mutual(graph, left[..], right[..])
    }

    constructor (graph: MatchMatrix)
      ensures Valid() && this.graph == graph && fresh(left) && fresh(right)
      ensures forall l :: 0 <= l < graph.lhsSize ==> left[l] == UNUSED
    {
      this.graph := graph;
      left := new int[graph.lhsSize](_ => UNUSED);
      right := new int[graph.rhsSize](_ => UNUSED);
    }

    /**
     * Depth-first search for an augmenting path from ilhs. `dead` is any closed set: the search
     * never re-links a node of it.
     */
    method TryAugment(ilhs: int, seen: array<bool>, ghost dead: set<int>) returns (found: bool)
      requires Valid() && 0 <= ilhs < graph.lhsSize && seen.Length == graph.rhsSize
      requires left[ilhs] != UNUSED ==> seen[left[ilhs]]
      requires Closed(graph, right[..], dead)
      modifies seen, left, right
      decreases Unmarked(seen[..])
      ensures Marked(old(seen[..])) <= Marked(seen[..])
      // On failure nothing is linked anew, and what the search marked is closed off.
      ensures !found ==> left[..] == old(left[..]) && right[..] == old(right[..])
      ensures !found ==> NeighboursIn(graph, ilhs, Marked(seen[..]))
      ensures !found ==> ClosedUnder(graph, right[..], Marked(seen[..]) - Marked(old(seen[..])), Marked(seen[..]))
      // On success exactly ilhs becomes matched, through nodes the search marked itself.
      ensures found ==> Augmented(graph, old(left[..]), old(right[..]), left[..], right[..], ilhs,
                                  Marked(seen[..]) - Marked(old(seen[..])) - dead)
      ensures found ==> !NeighboursIn(graph, ilhs, dead)
    {
      ghost var seen0, left0, right0 := seen[..], left[..], right[..];
      for irhs := 0 to graph.rhsSize
        invariant left[..] == left0 && right[..] == right0
        invariant Marked(seen0) <= Marked(seen[..])
        invariant forall r :: 0 <= r < irhs && graph.HasEdge(ilhs, r) ==> r in Marked(seen[..])
        invariant ClosedUnder(graph, right0, Marked(seen[..]) - Marked(seen0), Marked(seen[..]))
      {
        if seen[irhs] || !graph.HasEdge(ilhs, irhs) {
          continue;
        }
        ghost var seen1 := seen[..];
        seen[irhs] := true;
        assert Marked(seen[..]) == Marked(seen1) + {irhs};
        assert left[..] == left0 && right[..] == right0;
        MarkingShrinksUnmarked(seen0, seen[..], irhs);
        var reachesSink := right[irhs] == UNUSED;
        ghost var relinked: set<int> := {};
        if !reachesSink {
          ghost var seen2 := seen[..];
          reachesSink := TryAugment(right[irhs], seen, dead);
          relinked := Marked(seen[..]) - Marked(seen2) - dead;
        }
        if reachesSink {
          LinkExtends(graph, left0, right0, left[..], right[..], ilhs, irhs, relinked);
          ghost var left1, right1 := left[..], right[..];
          left[ilhs] := irhs;
          right[irhs] := ilhs;
          assert left[..] == left1[ilhs := irhs] && right[..] == right1[irhs := ilhs];
          AugmentedByMore(graph, left0, right0, left[..], right[..], ilhs, relinked + {irhs},
                          Marked(seen[..]) - Marked(seen0) - dead);
          return true;
        }
      }
      return false;
    }

    /** The edges of a maximum matching, in ascending order of their left node. */
    method Compute() returns (result: seq<(int, int)>)
      requires Valid() && forall l :: 0 <= l < graph.lhsSize ==> left[l] == UNUSED
      modifies left, right
      ensures IsMaximumMatching(graph, Elements(result))
      ensures forall i, j :: 0 <= i < j < |result| ==> result[i].0 < result[j].0
    {
      ghost var dead: set<int> := {};
      for ilhs := 0 to graph.lhsSize
        invariant Valid() && Closed(graph, right[..], dead)
        invariant forall l :: ilhs <= l < graph.lhsSize ==> left[l] == UNUSED
        invariant forall l :: 0 <= l < ilhs && left[l] == UNUSED ==> NeighboursIn(graph, l, dead)
      {
        assert left[ilhs] == UNUSED;
        var seen := new bool[graph.rhsSize](_ => false);
        assert Marked(seen[..]) == {};
        var found := TryAugment(ilhs, seen, dead);
        if !found {
          dead := dead + Marked(seen[..]);
        }
      }
      ghost var linked := left[..];
      ClosedSetProvesMaximum(graph, linked, right[..], dead);
      result := [];
      for ilhs := 0 to left.Length
        invariant left[..] == linked
        invariant Elements(result) == Pairs(linked[..ilhs])
        invariant forall i :: 0 <= i < |result| ==> result[i].0 < ilhs
        invariant forall i, j :: 0 <= i < j < |result| ==> result[i].0 < result[j].0
      {
        var irhs := left[ilhs];
        PairsSnoc(linked[..ilhs], irhs);
        assert linked[..ilhs + 1] == linked[..ilhs] + [irhs];
        if irhs == UNUSED {
          continue;
        }
        ElementsSnoc(result, (ilhs, irhs));
        result := result + [(ilhs, irhs)];
      }
      assert linked[..left.Length] == linked;
    }
  }

  lemma MarkingShrinksUnmarked(before: seq<bool>, after: seq<bool>, r: int)
    requires |before| == |after| && Marked(before) <= Marked(after)
    requires r in Marked(after) && r !in Marked(before)
    ensures Unmarked(after) < Unmarked(before)
  {
    forall x | x in Unmarked(after) ensures x in Unmarked(before) {
      assert x !in Marked(after);
    }
    assert r in Unmarked(before) && r !in Unmarked(after);
  }

  lemma PairsSnoc(left: seq<int>, r: int)
    ensures Pairs(left + [r]) == Pairs(left) + if r == UNUSED then {} else {(|left|, r)}
  {
    var longer := left + [r];
    forall p | p in Pairs(left) ensures p in Pairs(longer) {
      assert longer[p.0] == left[p.0];
    }
    if r != UNUSED {
      assert longer[|left|] == r;
    }
  }

  lemma ElementsSnoc<T>(q: seq<T>, x: T)
    ensures Elements(q + [x]) == Elements(q) + {x}
  {
    assert forall y :: y in Elements(q) ==> y in q + [x];
  }

  method FindMaxBipartiteMatching(g: MatchMatrix) returns (matches: seq<(int, int)>)
    ensures IsMaximumMatching(g, Elements(matches))
    ensures forall i, j :: 0 <= i < j < |matches| ==> matches[i].0 < matches[j].0
  {
    var state := new MaxBipartiteMatchState(g);
    matches := state.Compute();
  }

  // ---- the decision taken on the size of the matching ----

  /** A matching covers one side exactly when it is as large as that side. */
  lemma CoveringIsSize(g: MatchMatrix, m: set<(int, int)>)
    requires IsMatching(g, m)
    ensures CoversAllRight(g, m) <==> |m| >= g.rhsSize
    ensures CoversAllLeft(g, m) <==> |m| >= g.lhsSize
  {
    LeftNodesCardinality(g, m);
    RightNodesCardinality(g, m);
    FullWhenAsLarge(RightNodes(m), g.rhsSize);
    FullWhenAsLarge(LeftNodes(m), g.lhsSize);
  }

  lemma {:induction false} LeftNodesCardinality(g: MatchMatrix, m: set<(int, int)>)
    requires IsMatching(g, m)
    ensures |LeftNodes(m)| == |m|
    decreases m
  {
    if m != {} {
      var p := Pick(m);
      LeftNodesCardinality(g, m - {p});
      assert LeftNodes(m) == LeftNodes(m - {p}) + {p.0} && p.0 !in LeftNodes(m - {p});
    }
  }

  lemma {:induction false} RightNodesCardinality(g: MatchMatrix, m: set<(int, int)>)
    requires IsMatching(g, m)
    ensures |RightNodes(m)| == |m|
    decreases m
  {
    if m != {} {
      var p := Pick(m);
      RightNodesCardinality(g, m - {p});
      assert RightNodes(m) == RightNodes(m - {p}) + {p.1} && p.1 !in RightNodes(m - {p});
    }
  }

  lemma FullWhenAsLarge(s: set<int>, n: nat)
    requires forall x :: x in s ==> 0 <= x < n
    ensures (forall x :: 0 <= x < n ==> x in s) <==> |s| >= n
  {
    RangeCardinality(0, n);
    SubsetCardinality(s, Range(0, n));
    if forall x :: 0 <= x < n ==> x in s {
      assert s == Range(0, n);
    }
  }

  /**
   * Accepts exactly when some pairing gives every matcher its own element (superset) and every
   * element its own matcher (subset), as far as each is asked for.
   */
  method FindPairing(g: MatchMatrix, superset: bool, subset: bool) returns (accepted: bool)
    ensures accepted <==> exists m :: IsMatching(g, m)
                                      && (superset ==> CoversAllRight(g, m))
                                      && (subset ==> CoversAllLeft(g, m))
  {
    var matches := FindMaxBipartiteMatching(g);
    ghost var best := Elements(matches);
    ElementsCardinality(matches);
    CoveringIsSize(g, best);
    forall m | IsMatching(g, m) ensures |m| <= |best| && (CoversAllRight(g, m) ==> |m| >= g.rhsSize)
                                        && (CoversAllLeft(g, m) ==> |m| >= g.lhsSize) {
      CoveringIsSize(g, m);
    }
    var maxFlow := |matches|;
    if superset && maxFlow < g.rhsSize {
      return false;
    }
    if subset && maxFlow < g.lhsSize {
      return false;
    }
    return true;
  }
}
