/** What one RRT* pass does, said about the tree as it was when the pass began: a set of nodes is
    selected from that one snapshot and all of them move under the sample at once. RrtTree.dfy
    proves that the recursive, in-place walk arrives at exactly this. */
module StarPasses {
  import opened Points
  import opened Forests

  /** The edge leading into a node: its length and the points flown along it. */
  datatype Edge = Edge(length: real, path: seq<XYZCoord>)

  /** The contents of all nodes at one moment. */
  datatype Snapshot<N> = Snapshot(forest: Forest<N>, cost: map<N, real>, edge: map<N, Edge>)

  ghost predicate Complete<N>(s: Snapshot<N>) {
    && Rooted(s.forest)
    && s.cost.Keys == s.forest.kids.Keys
    && s.edge.Keys == s.forest.kids.Keys
  }

  /** A node costs what its parent costs plus the length of its own edge. */
  ghost predicate CostLink<N>(s: Snapshot<N>, n: N)
    requires Complete(s) && n in s.forest.parent
  {
    assert ParentLink(s.forest, n);
    && s.cost[n] == s.cost[s.forest.parent[n]] + s.edge[n].length
    && s.edge[n].length >= 0.0
  }

  ghost predicate Consistent<N>(s: Snapshot<N>) {
    Complete(s) && forall n | n in s.forest.parent :: CostLink(s, n)
  }

  lemma ConsistentParts<N>(s: Snapshot<N>)
    requires Consistent(s)
    ensures Complete(s) && Rooted(s.forest) && s.forest.root in s.forest.kids
    ensures s.cost.Keys == s.edge.Keys == s.forest.kids.Keys
  {
  }

  lemma {:induction false} AncestorIsCheaper<N>(s: Snapshot<N>, a: N, n: N)
    requires Consistent(s) && n in s.forest.kids && Above(s.forest, a, n)
    ensures a in s.forest.kids && s.cost[a] <= s.cost[n]
    decreases s.forest.depth[n]
  {
    if n != a {
      assert ParentLink(s.forest, n) && CostLink(s, n);
      AncestorIsCheaper(s, a, s.forest.parent[n]);
    }
  }

  /** Parents and edges determine depths and costs. */
  lemma {:induction false} SameFromLinks<N>(s: Snapshot<N>, t: Snapshot<N>, n: N)
    requires Consistent(s) && Consistent(t) && s.forest.root == t.forest.root
    requires s.forest.kids.Keys == t.forest.kids.Keys && s.forest.parent == t.forest.parent && s.edge == t.edge
    requires s.cost[s.forest.root] == t.cost[s.forest.root] && n in s.forest.kids
    ensures s.forest.depth[n] == t.forest.depth[n] && s.cost[n] == t.cost[n]
    decreases s.forest.depth[n]
  {
    if n != s.forest.root {
      assert ParentLink(s.forest, n) && ParentLink(t.forest, n);
      assert CostLink(s, n) && CostLink(t, n);
      SameFromLinks(s, t, s.forest.parent[n]);
    }
  }

  lemma SameContents<N>(s: Snapshot<N>, t: Snapshot<N>)
    requires Consistent(s) && Consistent(t) && s.forest.root == t.forest.root
    requires s.forest.kids == t.forest.kids && s.forest.parent == t.forest.parent && s.edge == t.edge
    requires s.cost[s.forest.root] == t.cost[t.forest.root]
    ensures s == t
  {
    hide CostLink, ParentLink, KidLinks;
    forall n | n in s.forest.kids
      ensures s.forest.depth[n] == t.forest.depth[n] && s.cost[n] == t.cost[n]
    {
      SameFromLinks(s, t, n);
    }
    assert s.forest.depth == t.forest.depth && s.cost == t.cost;
  }

  // ----- flying down the tree

  /** A path without its first point, which the edge before it already ended on. */
  ghost function AfterFirst(path: seq<XYZCoord>): seq<XYZCoord> {
    if path == [] then [] else path[1..]
  }

  /** The points along a run of edges, each without its first point. */
  ghost function Flown<N>(edge: map<N, Edge>, nodes: seq<N>): seq<XYZCoord>
    requires forall n | n in nodes :: n in edge
    decreases |nodes|
  {
    if nodes == [] then []
    else
      Flown(edge, nodes[..|nodes| - 1]) + AfterFirst(edge[nodes[|nodes| - 1]].path)
  }

  ghost function TotalLength<N>(edge: map<N, Edge>, nodes: seq<N>): real
    requires forall n | n in nodes :: n in edge
    decreases |nodes|
  {
    if nodes == [] then 0.0
    else TotalLength(edge, nodes[..|nodes| - 1]) + edge[nodes[|nodes| - 1]].length
  }

  ghost predicate ChainIn<N>(s: Snapshot<N>, a: N, n: N)
    requires Complete(s)
  {
    && n in s.forest.kids && Above(s.forest, a, n)
    && forall m | m in Chain(s.forest, a, n) :: m in s.edge && m in s.forest.parent
  }

  lemma {:induction false} ChainMembers<N>(s: Snapshot<N>, a: N, n: N)
    requires Complete(s) && n in s.forest.kids && Above(s.forest, a, n)
    ensures ChainIn(s, a, n)
    decreases s.forest.depth[n]
  {
    if n != a {
      assert ParentLink(s.forest, n);
      ChainMembers(s, a, s.forest.parent[n]);
    }
  }

  /** The lengths along the way down add up to what the costs differ by. */
  lemma {:induction false} ChainCost<N>(s: Snapshot<N>, a: N, n: N)
    requires Consistent(s) && n in s.forest.kids && Above(s.forest, a, n)
    ensures ChainIn(s, a, n) && a in s.cost
    ensures TotalLength(s.edge, Chain(s.forest, a, n)) == s.cost[n] - s.cost[a]
    decreases s.forest.depth[n]
  {
    ChainMembers(s, a, n);
    if n != a {
      assert ParentLink(s.forest, n) && CostLink(s, n);
      var p := s.forest.parent[n];
      ChainCost(s, a, p);
      var chain := Chain(s.forest, a, n);
      assert chain == Chain(s.forest, a, p) + [n];
      assert chain[..|chain| - 1] == Chain(s.forest, a, p);
    }
  }

  /** The points flown on the way from `a` down to `n`. */
  ghost function Way<N>(s: Snapshot<N>, a: N, n: N): seq<XYZCoord>
    requires Complete(s) && n in s.forest.kids && Above(s.forest, a, n)
  {
    ChainMembers(s, a, n);
    Flown(s.edge, Chain(s.forest, a, n))
  }

  lemma WayStep<N>(s: Snapshot<N>, a: N, n: N)
    requires Complete(s) && n in s.forest.kids && Above(s.forest, a, n)
    ensures n == a ==> Way(s, a, n) == []
    ensures n != a ==>
              n in s.forest.parent && s.forest.parent[n] in s.forest.kids && Above(s.forest, a, s.forest.parent[n]) &&
              0 <= s.forest.depth[s.forest.parent[n]] < s.forest.depth[n] &&
              Way(s, a, n) == Way(s, a, s.forest.parent[n]) + AfterFirst(s.edge[n].path)
  {
    if n != a {
      assert ParentLink(s.forest, n);
      var chain := Chain(s.forest, a, n);
      assert chain[..|chain| - 1] == Chain(s.forest, a, s.forest.parent[n]);
    }
  }

  lemma {:induction false} WayJoins<N>(s: Snapshot<N>, a: N, b: N, n: N)
    requires Complete(s) && b in s.forest.kids && n in s.forest.kids
    requires Above(s.forest, a, b) && Above(s.forest, b, n)
    ensures Above(s.forest, a, n) && Way(s, a, n) == Way(s, a, b) + Way(s, b, n)
    decreases s.forest.depth[n]
  {
    hide Way, AfterFirst, Rooted;
    AboveTransitive(s.forest, a, b, n);
    WayStep(s, b, n);
    if n != b {
      AboveDepth(s.forest, a, b);
      AboveDepth(s.forest, b, n);
      WayStep(s, a, n);
      WayJoins(s, a, b, s.forest.parent[n]);
    }
  }

  /** `m` hangs under the same node by the same edge in both. */
  ghost predicate SameLink<N>(s: Snapshot<N>, t: Snapshot<N>, m: N)
    requires Complete(s) && Complete(t)
  {
    && m in s.forest.parent && m in t.forest.parent && s.forest.parent[m] == t.forest.parent[m]
    && m in s.edge && m in t.edge && s.edge[m] == t.edge[m]
  }

  /** Only the links above a node say how it is reached. */
  lemma {:induction false} SameWay<N>(s: Snapshot<N>, t: Snapshot<N>, a: N, n: N)
    requires Complete(s) && Complete(t) && s.forest.root == t.forest.root && n in t.forest.kids
    requires n in s.forest.kids && Above(s.forest, a, n)
    requires forall m | m in s.forest.parent && m in s.forest.kids && Above(s.forest, m, n) :: SameLink(s, t, m)
    ensures Above(t.forest, a, n) && Way(t, a, n) == Way(s, a, n)
    decreases s.forest.depth[n]
  {
    hide Way, AfterFirst;
    WayStep(s, a, n);
    if n != a {
      assert Above(s.forest, n, n) && SameLink(s, t, n);
      assert ParentLink(t.forest, n);
      SameWay(s, t, a, s.forest.parent[n]);
    }
    WayStep(t, a, n);
  }

  /** Every point on the way is a later point of the edge into some node passed. */
  lemma {:induction false} WayFrom<N>(s: Snapshot<N>, a: N, n: N, k: nat) returns (m: N, i: nat)
    requires Complete(s) && n in s.forest.kids && Above(s.forest, a, n) && k < |Way(s, a, n)|
    ensures m in s.forest.parent && m in s.forest.kids && Above(s.forest, a, m) && m != a && Above(s.forest, m, n)
    ensures m in s.edge && 1 <= i < |s.edge[m].path| && Way(s, a, n)[k] == s.edge[m].path[i]
    decreases s.forest.depth[n]
  {
    hide Way, Rooted;
    WayStep(s, a, n);
    var p := s.forest.parent[n];
    if k < |Way(s, a, p)| {
      m, i := WayFrom(s, a, p, k);
    } else {
      m, i := n, k - |Way(s, a, p)| + 1;
    }
  }

  /** `s` with one more leaf. */
  ghost function WithLeaf<N>(s: Snapshot<N>, anchor: N, leaf: N, edge: Edge): Snapshot<N>
    requires Complete(s) && anchor in s.forest.kids
  {
    Snapshot(Grown(s.forest, anchor, leaf), s.cost[leaf := s.cost[anchor] + edge.length], s.edge[leaf := edge])
  }

  /** WithLeaf spelled out. */
  ghost predicate WithLeafShape<N>(s: Snapshot<N>, anchor: N, leaf: N, edge: Edge)
    requires Complete(s) && anchor in s.forest.kids
  {
    var t := WithLeaf(s, anchor, leaf, edge);
    && t.forest == Grown(s.forest, anchor, leaf)
    && t.forest.root == s.forest.root
    && t.forest.kids.Keys == s.forest.kids.Keys + {leaf}
    && t.forest.kids == s.forest.kids[anchor := s.forest.kids[anchor] + [leaf]][leaf := []]
    && t.forest.parent == s.forest.parent[leaf := anchor]
    && t.cost == s.cost[leaf := s.cost[anchor] + edge.length]
    && t.edge == s.edge[leaf := edge]
    && leaf !in s.forest.parent
  }

  lemma WithLeafConsistent<N>(s: Snapshot<N>, anchor: N, leaf: N, edge: Edge)
    requires Consistent(s) && anchor in s.forest.kids && leaf !in s.forest.kids && edge.length >= 0.0
    ensures Consistent(WithLeaf(s, anchor, leaf, edge))
    ensures WithLeafShape(s, anchor, leaf, edge)
  {
    GrownRooted(s.forest, anchor, leaf);
    var t := WithLeaf(s, anchor, leaf, edge);
    forall n | n in t.forest.parent
      ensures CostLink(t, n)
    {
      assert ParentLink(t.forest, n);
      assert n != leaf ==> CostLink(s, n);
    }
  }

  /** A new leaf changes no way to another node. */
  lemma WithLeafWay<N>(s: Snapshot<N>, anchor: N, leaf: N, edge: Edge, a: N, n: N)
    requires Complete(s) && anchor in s.forest.kids && leaf !in s.forest.kids
    requires n in s.forest.kids && Above(s.forest, a, n)
    requires WithLeafShape(s, anchor, leaf, edge) && Complete(WithLeaf(s, anchor, leaf, edge))
    ensures Above(WithLeaf(s, anchor, leaf, edge).forest, a, n)
    ensures Way(WithLeaf(s, anchor, leaf, edge), a, n) == Way(s, a, n)
  {
    hide Way, Rooted, Grown, WithLeaf;
    SameWay(s, WithLeaf(s, anchor, leaf, edge), a, n);
  }

  // ----- which nodes a pass selects

  /** The part of `s` in front of the first `x`; all of it when there is none. */
  function Before<N(==)>(s: seq<N>, x: N): (r: seq<N>)
    ensures |r| <= |s| && r == s[..|r|] && x !in r
    ensures x in s <==> |r| < |s|
    ensures |r| < |s| ==> s[|r|] == x
  {
    if s == [] || s[0] == x then [] else [s[0]] + Before(s[1..], x)
  }

  /** A pass: where it starts, the new node, and for each node it could improve the better edge
      leading there from the new node. */
  datatype Pass<N> = Pass(start: Snapshot<N>, head: N, sample: N, better: map<N, Edge>)
  {
    ghost predicate Sound() {
      && Consistent(start)
      && head in start.forest.kids
      && sample in start.forest.kids
      && Above(start.forest, head, sample)
      && head != sample
      && (forall n | n in better :: n in start.forest.kids && Improves(n))
    }

    ghost predicate Improves(n: N)
      requires Complete(start) && n in better && n in start.cost && sample in start.cost
    {
      && better[n].length >= 0.0
      && start.cost[sample] + better[n].length < start.cost[n]
    }

    /** The walk descends through `n`: nothing on the way down was moved, and the walk stops
        short at the sample's own parent. */
    ghost predicate Visited(n: N)
      requires Sound() && n in start.forest.kids
      decreases start.forest.depth[n]
    {
      n == head ||
      (n in start.forest.parent && n !in better &&
       (assert ParentLink(start.forest, n);
        sample !in start.forest.kids[start.forest.parent[n]] && Visited(start.forest.parent[n])))
    }

    /** The walk compares `n` with a route through the sample. */
    ghost predicate Examined(n: N)
      requires Sound() && n in start.forest.parent
    {
      assert ParentLink(start.forest, n);
      var p := start.forest.parent[n];
      Visited(p) && n in Before(start.forest.kids[p], sample)
    }

    ghost function Selected(): set<N>
      requires Sound()
    {
      set n | n in start.forest.parent && n in better && Examined(n)
    }

    lemma {:induction false} VisitedIsUnderHead(n: N)
      requires Sound() && n in start.forest.kids && Visited(n)
      ensures Above(start.forest, head, n)
      decreases start.forest.depth[n]
    {
      if n != head {
        assert ParentLink(start.forest, n);
        VisitedIsUnderHead(start.forest.parent[n]);
      }
    }

    lemma HeadNotSelected()
      requires Sound()
      ensures head !in Selected()
    {
      if head in Selected() {
        assert ParentLink(start.forest, head);
        VisitedIsUnderHead(start.forest.parent[head]);
        AboveDepth(start.forest, head, start.forest.parent[head]);
      }
    }

    /** Nothing above a visited node is selected. */
    lemma {:induction false} VisitedIsSettled(a: N, n: N)
      requires Sound() && n in start.forest.kids && Visited(n) && Above(start.forest, a, n)
      ensures a !in Selected()
      decreases start.forest.depth[n]
    {
      HeadNotSelected();
      if n == head {
        if a in Selected() {
          assert ParentLink(start.forest, a);
          VisitedIsUnderHead(start.forest.parent[a]);
          AboveDepth(start.forest, head, start.forest.parent[a]);
          AboveDepth(start.forest, a, head);
        }
      } else if a != n {
        assert ParentLink(start.forest, n);
        VisitedIsSettled(a, start.forest.parent[n]);
      }
    }

    /** The cost order is what keeps the tree a tree: a node that the sample can improve costs more
        than the sample, so it cannot be the sample or one of the sample's ancestors. */
    lemma BetterIsNotAboveSample(n: N)
      requires Sound() && n in better
      ensures !Above(start.forest, n, sample)
    {
      assert Improves(n);
      if Above(start.forest, n, sample) {
        AncestorIsCheaper(start, n, sample);
      }
    }

    // ----- the tree after some of the selected nodes have moved

    /** The sample's own list: what it had, then the moved nodes. */
    ghost predicate Adopted(now: seq<N>, moved: set<N>)
      requires Sound()
    {
      var had := start.forest.kids[sample];
      && |had| <= |now| && now[..|had|] == had
      && (forall n | n in now[|had|..] :: n in moved)
      && (forall n | n in moved :: n in now[|had|..])
    }

    /** Parents and incoming edges: replaced for the moved nodes, kept for the others. */
    ghost predicate LinksMoved(s: Snapshot<N>, moved: set<N>)
      requires Sound() && Complete(s) && s.forest.kids.Keys == start.forest.kids.Keys
      requires s.forest.root == start.forest.root
    {
      && (forall n | n in start.forest.parent ::
            s.forest.parent[n] == if n in moved then sample else start.forest.parent[n])
      && (forall n | n in start.forest.kids ::
            s.edge[n] == if n in moved && n in better then better[n] else start.edge[n])
    }

    /** Child lists: the moved nodes are gone from where they were, the rest keep their order. */
    ghost predicate ListsMoved(s: Snapshot<N>, moved: set<N>)
      requires Sound() && Complete(s) && s.forest.kids.Keys == start.forest.kids.Keys
    {
      && (forall p | p in start.forest.kids && p != sample ::
            s.forest.kids[p] == Without(start.forest.kids[p], moved))
      && Adopted(s.forest.kids[sample], moved)
    }

    /** `s` is the start with exactly the nodes in `moved` hanging under the sample instead. */
    ghost predicate Reached(s: Snapshot<N>, moved: set<N>)
      requires Sound()
    {
      && Consistent(s)
      && moved <= Selected()
      && s.forest.root == start.forest.root
      && s.forest.kids.Keys == start.forest.kids.Keys
      && s.cost[s.forest.root] == start.cost[s.forest.root]
      && LinksMoved(s, moved)
      && ListsMoved(s, moved)
    }

    lemma ReachedAtStart()
      requires Sound()
      ensures Reached(start, {})
    {
      forall p | p in start.forest.kids
        ensures start.forest.kids[p] == Without(start.forest.kids[p], {})
      {
        WithoutNothing(start.forest.kids[p], {});
      }
    }

    /** `n` moved, or was below a node that moved. */
    ghost predicate Displaced(moved: set<N>, n: N)
      requires Sound() && n in start.forest.kids
    {
      exists a | a in moved :: Above(start.forest, a, n)
    }

    lemma DisplacedStep(moved: set<N>, n: N)
      requires Sound() && moved <= Selected() && n in start.forest.kids
      ensures n in moved ==> Displaced(moved, n)
      ensures n !in start.forest.parent ==> !Displaced(moved, n)
      ensures n in start.forest.parent ==> ParentLink(start.forest, n)
      ensures n in start.forest.parent && n !in moved ==>
                (Displaced(moved, n) <==> Displaced(moved, start.forest.parent[n]))
    {
      hide Visited, Examined;
      assert Above(start.forest, n, n);
      if n in start.forest.parent {
        assert ParentLink(start.forest, n);
      }
    }

    /** A node that did not move gains or loses exactly what its parent does. */
    lemma KeptStep(s: Snapshot<N>, moved: set<N>, n: N)
      requires Sound() && Reached(s, moved) && n in start.forest.parent && n !in moved
      ensures ParentLink(start.forest, n)
      ensures s.cost[n] - start.cost[n] ==
              s.cost[start.forest.parent[n]] - start.cost[start.forest.parent[n]]
    {
      hide ListsMoved, Visited, Selected;
      assert ParentLink(start.forest, n);
      assert n in s.forest.parent;
      assert CostLink(s, n) && CostLink(start, n);
    }

    lemma MovedStep(s: Snapshot<N>, moved: set<N>, n: N)
      requires Sound() && Reached(s, moved) && n in moved
      requires s.cost[sample] == start.cost[sample]
      ensures n in start.forest.kids && s.cost[n] < start.cost[n]
    {
      hide ListsMoved, Visited;
      assert n in s.forest.parent;
      assert CostLink(s, n) && Improves(n);
    }

    lemma {:induction false} UntouchedCost(s: Snapshot<N>, moved: set<N>, n: N)
      requires Sound() && Reached(s, moved) && n in start.forest.kids && !Displaced(moved, n)
      ensures s.cost[n] == start.cost[n]
      decreases start.forest.depth[n]
    {
      hide LinksMoved, ListsMoved, Visited, Selected, Displaced;
      DisplacedStep(moved, n);
      if n in start.forest.parent {
        KeptStep(s, moved, n);
        UntouchedCost(s, moved, start.forest.parent[n]);
      }
    }

    lemma SampleSettled(s: Snapshot<N>, moved: set<N>)
      requires Sound() && Reached(s, moved)
      ensures s.cost[sample] == start.cost[sample] && !Displaced(moved, sample)
    {
      forall a | a in moved
        ensures !Above(start.forest, a, sample)
      {
        BetterIsNotAboveSample(a);
      }
      UntouchedCost(s, moved, sample);
    }

    /** No node ever costs more, and the nodes that cost less are exactly the moved ones and
        those that were below them. */
    lemma {:induction false} CostAfter(s: Snapshot<N>, moved: set<N>, n: N)
      requires Sound() && Reached(s, moved) && n in start.forest.kids
      ensures s.cost[n] <= start.cost[n]
      ensures s.cost[n] < start.cost[n] <==> Displaced(moved, n)
      decreases start.forest.depth[n]
    {
      hide LinksMoved, ListsMoved, Visited, Selected, Displaced;
      DisplacedStep(moved, n);
      if n in moved {
        SampleSettled(s, moved);
        MovedStep(s, moved, n);
      } else if n in start.forest.parent {
        KeptStep(s, moved, n);
        CostAfter(s, moved, start.forest.parent[n]);
      }
    }

    lemma VisitedCost(s: Snapshot<N>, moved: set<N>, n: N)
      requires Sound() && Reached(s, moved) && n in start.forest.kids && Visited(n)
      ensures s.cost[n] == start.cost[n]
    {
      forall a | a in moved
        ensures !Above(start.forest, a, n)
      {
        if Above(start.forest, a, n) { VisitedIsSettled(a, n); }
      }
      UntouchedCost(s, moved, n);
    }

    /** What the walk reads off an examined child that has not moved is what the pass began with. */
    lemma ExaminedCost(s: Snapshot<N>, moved: set<N>, c: N)
      requires Sound() && Reached(s, moved) && c in start.forest.parent && Examined(c) && c !in moved
      ensures c in start.forest.kids && s.cost[c] == start.cost[c] && s.cost[sample] == start.cost[sample]
    {
      hide ListsMoved, Visited, LinksMoved;
      KeptStep(s, moved, c);
      VisitedCost(s, moved, start.forest.parent[c]);
      SampleSettled(s, moved);
    }

    /** What a rewiring of `c` needs to know about the tree it finds. */
    lemma ReadyToMove(s: Snapshot<N>, moved: set<N>, c: N)
      requires Sound() && Reached(s, moved) && c in start.forest.parent && Examined(c) && c !in moved
      ensures Complete(s) && Complete(start) && c in start.cost && sample in start.cost
      ensures c in s.forest.parent && s.forest.parent[c] == start.forest.parent[c]
      ensures s.forest.parent[c] in s.forest.kids && sample in s.forest.kids && c in s.forest.kids
      ensures s.cost[c] == start.cost[c] && s.cost[sample] == start.cost[sample]
    {
      hide ListsMoved, Visited;
      ExaminedCost(s, moved, c);
      assert ParentLink(s.forest, c);
    }

    /** Nor does it get above the sample while the pass is under way. */
    lemma StillNotAboveSample(s: Snapshot<N>, moved: set<N>, c: N)
      requires Sound() && Reached(s, moved) && c in start.forest.parent && Examined(c) && c !in moved && c in better
      ensures sample in s.forest.kids && !Above(s.forest, c, sample) && better[c].length >= 0.0
    {
      hide ListsMoved, LinksMoved, Visited, Examined, Rooted;
      ReadyToMove(s, moved, c);
      assert Improves(c);
      if Above(s.forest, c, sample) { AncestorIsCheaper(s, c, sample); }
    }

    lemma LinkAfter(s: Snapshot<N>, moved: set<N>, n: N)
      requires Sound() && Reached(s, moved) && n in s.forest.parent
      ensures n in start.forest.parent && n in s.edge && n in start.edge && n in start.cost && sample in start.cost
      ensures n in moved ==>
                s.forest.parent[n] == sample && n in better && s.edge[n] == better[n]
      ensures n !in moved ==>
                s.forest.parent[n] == start.forest.parent[n] && s.edge[n] == start.edge[n]
    {
      hide ListsMoved, Visited, CostLink;
    }

    lemma HeadVisited()
      requires Sound()
      ensures head in start.forest.kids && Visited(head)
    {
    }

    /** A pass neither takes nodes out from under the head nor brings any in. */
    lemma {:induction false} UnderHead(s: Snapshot<N>, moved: set<N>, n: N)
      requires Sound() && Reached(s, moved) && n in start.forest.kids
      ensures Above(s.forest, head, n) <==> Above(start.forest, head, n)
      decreases s.forest.depth[n]
    {
      hide ListsMoved, CostLink;
      if n != head && n in start.forest.parent {
        assert ParentLink(start.forest, n) && ParentLink(s.forest, n);
        UnderHead(s, moved, s.forest.parent[n]);
        if n in moved {
          VisitedIsUnderHead(start.forest.parent[n]);
        }
      }
    }

    lemma HeadSetKept(s: Snapshot<N>, moved: set<N>)
      requires Sound() && Reached(s, moved)
      ensures Below(s.forest, head) == Below(start.forest, head)
    {
      hide CostLink, ParentLink, KidLinks, Visited, Examined, LinksMoved, ListsMoved;
      forall n | n in start.forest.kids
        ensures Above(s.forest, head, n) <==> Above(start.forest, head, n)
      {
        UnderHead(s, moved, n);
      }
    }

    /** A pass does not touch the way to the head. */
    lemma HeadWayKept(s: Snapshot<N>, moved: set<N>, a: N)
      requires Sound() && Reached(s, moved) && Above(start.forest, a, head)
      ensures Above(s.forest, a, head) && Way(s, a, head) == Way(start, a, head)
    {
      hide Way, Rooted, Consistent, Reached, Selected;
      ReachedKeys(s, moved);
      ConsistentParts(start);
      forall m | m in start.forest.parent && m in start.forest.kids && Above(start.forest, m, head)
        ensures SameLink(start, s, m)
      {
        VisitedIsSettled(m, head);
        LinkAfter(s, moved, m);
      }
      SameWay(start, s, a, head);
    }

    lemma MoveOneList(s: Snapshot<N>, moved: set<N>, c: N, p: N)
      requires Sound() && Reached(s, moved) && c in Selected() && c !in moved
      requires p in start.forest.kids && p != sample
      ensures c in s.forest.parent && s.forest.parent[c] == start.forest.parent[c] != sample
      ensures MovedKids(s.forest, c, sample)[p] == Without(start.forest.kids[p], moved + {c})
    {
      assert ParentLink(start.forest, c) && ParentLink(s.forest, c);
      SampleNotVisited();
      assert KidLinks(start.forest, p);
      WithoutTwice(start.forest.kids[p], moved, {c});
      if p != start.forest.parent[c] {
        WithoutMembers(start.forest.kids[p], moved);
        WithoutNothing(s.forest.kids[p], {c});
      }
    }

    lemma AdoptOne(was: seq<N>, moved: set<N>, c: N)
      requires Sound() && Adopted(was, moved)
      ensures Adopted(was + [c], moved + {c})
    {
      hide Visited, Consistent;
      var had := start.forest.kids[sample];
      assert (was + [c])[|had|..] == was[|had|..] + [c];
      assert (was + [c])[..|had|] == was[..|had|];
    }

    lemma MoveOneAdopted(s: Snapshot<N>, moved: set<N>, c: N)
      requires Sound() && Reached(s, moved) && c in Selected() && c !in moved
      ensures c in s.forest.parent
      ensures MovedKids(s.forest, c, sample)[sample] == s.forest.kids[sample] + [c]
      ensures Adopted(MovedKids(s.forest, c, sample)[sample], moved + {c})
    {
      assert ParentLink(start.forest, c) && ParentLink(s.forest, c);
      SampleNotVisited();
      AdoptOne(s.forest.kids[sample], moved, c);
    }

    /** `t` is `s` with `c` moved under the sample, its costs brought up to date. */
    ghost predicate OneMove(s: Snapshot<N>, c: N, t: Snapshot<N>)
      requires Sound() && Complete(s) && c in s.forest.parent && sample in s.forest.kids && c in better
    {
      && Consistent(t)
      && t.forest.root == s.forest.root
      && t.forest.kids.Keys == s.forest.kids.Keys
      && t.cost[t.forest.root] == s.cost[t.forest.root]
      && t.forest.kids == MovedKids(s.forest, c, sample)
      && t.forest.parent == s.forest.parent[c := sample]
      && t.edge == s.edge[c := better[c]]
    }

    lemma MoveOneLinks(s: Snapshot<N>, moved: set<N>, c: N, t: Snapshot<N>)
      requires Sound() && Reached(s, moved) && c in Selected() && c in s.forest.parent
      requires OneMove(s, c, t)
      ensures LinksMoved(t, moved + {c})
    {
      hide Rooted, MovedKids, Visited, Adopted, Without;
    }

    lemma MoveOneLists(s: Snapshot<N>, moved: set<N>, c: N, t: Snapshot<N>)
      requires Sound() && Reached(s, moved) && c in Selected() && c !in moved && c in s.forest.parent
      requires OneMove(s, c, t)
      ensures ListsMoved(t, moved + {c}) && t.forest.kids[sample] == s.forest.kids[sample] + [c]
    {
      hide Rooted, MovedKids, Visited, Adopted, Without;
      MoveOneAdopted(s, moved, c);
      forall p | p in start.forest.kids && p != sample
        ensures t.forest.kids[p] == Without(start.forest.kids[p], moved + {c})
      {
        MoveOneList(s, moved, c, p);
      }
    }

    /** Moving one more selected node: it comes last in the sample's list. */
    lemma MoveOne(s: Snapshot<N>, moved: set<N>, c: N, t: Snapshot<N>)
      requires Sound() && Reached(s, moved) && c in Selected() && c !in moved && c in s.forest.parent
      requires OneMove(s, c, t)
      ensures Reached(t, moved + {c}) && t.forest.kids[sample] == s.forest.kids[sample] + [c]
    {
      hide Rooted, MovedKids, LinksMoved, ListsMoved, Visited, Examined;
      MoveOneLinks(s, moved, c, t);
      MoveOneLists(s, moved, c, t);
    }

    lemma SampleNotVisited()
      requires Sound()
      ensures !Visited(sample)
    {
      if sample == start.forest.root {
        AboveDepth(start.forest, head, sample);
      } else {
        assert ParentLink(start.forest, sample);
      }
    }

    // ----- how far the walk goes

    /** Some node below the head, `n` itself or on the way down to it, could be improved. */
    ghost predicate ImprovableUpTo(n: N)
      requires Sound() && n in start.forest.kids
    {
      exists a | a in better :: a in start.forest.kids && a != head && Above(start.forest, head, a) &&
                                Above(start.forest, a, n)
    }

    lemma SampleHasParent()
      requires Sound()
      ensures sample in start.forest.parent && ParentLink(start.forest, sample)
      ensures Above(start.forest, head, start.forest.parent[sample])
    {
      if sample == start.forest.root { AboveDepth(start.forest, head, sample); }
    }

    lemma ImprovableStep(n: N)
      requires Sound() && n in start.forest.parent && Above(start.forest, head, n) && n != head
      ensures ParentLink(start.forest, n)
      ensures ImprovableUpTo(n) <==> n in better || ImprovableUpTo(start.forest.parent[n])
    {
      assert ParentLink(start.forest, n);
      assert Above(start.forest, n, n);
    }

    lemma NothingUpToHead()
      requires Sound()
      ensures !ImprovableUpTo(head)
    {
      forall a | a in start.forest.kids && Above(start.forest, head, a) && Above(start.forest, a, head)
        ensures a == head
      {
        AboveDepth(start.forest, head, a);
        AboveDepth(start.forest, a, head);
      }
    }

    /** The walk descends through `n` exactly if `n` is the head or below it, nothing on the way down to it
        could be improved, and it is not below the sample's parent. */
    lemma {:induction false} VisitedExactly(n: N)
      requires Sound() && n in start.forest.kids
      ensures sample in start.forest.parent
      ensures Visited(n) <==>
                && Above(start.forest, head, n) && !ImprovableUpTo(n)
                && (Above(start.forest, start.forest.parent[sample], n) ==> n == start.forest.parent[sample])
      decreases start.forest.depth[n]
    {
      hide ImprovableUpTo, CostLink, Improves;
      SampleHasParent();
      var last := start.forest.parent[sample];
      if n == head {
        NothingUpToHead();
        AboveDepth(start.forest, head, last);
        if Above(start.forest, last, head) { AboveDepth(start.forest, last, head); }
      } else if n in start.forest.parent {
        var p := start.forest.parent[n];
        assert ParentLink(start.forest, n);
        VisitedExactly(p);
        assert KidLinks(start.forest, p);
        if Above(start.forest, head, n) { ImprovableStep(n); }
        if Above(start.forest, n, p) { AboveDepth(start.forest, n, p); }
      }
    }

    /** So these are the nodes that are compared with a route through the sample: all below the head, except
        those below a node that could be improved, those below the sample's parent that are not its children,
        and those of its children that are not listed before the sample. */
    lemma ExaminedExactly(n: N)
      requires Sound() && n in start.forest.parent
      ensures start.forest.parent[n] in start.forest.kids && sample in start.forest.parent
      ensures var p, last := start.forest.parent[n], start.forest.parent[sample];
              Examined(n) <==>
                && Above(start.forest, head, p) && !ImprovableUpTo(p)
                && (Above(start.forest, last, p) ==> p == last && n in Before(start.forest.kids[p], sample))
    {
      hide ImprovableUpTo, CostLink, Improves, Visited;
      assert ParentLink(start.forest, n);
      var p := start.forest.parent[n];
      VisitedExactly(p);
      SampleHasParent();
      if sample in start.forest.kids[p] { assert KidLinks(start.forest, p); }
      assert Above(start.forest, p, p);
    }

    // ----- how the selection divides along the walk

    /** The selected nodes strictly below `n`. */
    ghost function Share(n: N): set<N>
      requires Sound()
    {
      set m | m in Selected() && m != n && Above(start.forest, n, m)
    }

    lemma WholeShare()
      requires Sound()
      ensures Share(head) == Selected()
    {
      HeadNotSelected();
      forall m | m in Selected()
        ensures Above(start.forest, head, m)
      {
        assert ParentLink(start.forest, m);
        VisitedIsUnderHead(start.forest.parent[m]);
      }
    }

    lemma {:induction false} VisitedUpwards(a: N, n: N)
      requires Sound() && n in start.forest.kids && Visited(n) && Above(start.forest, a, n)
      requires Above(start.forest, head, n) && a in start.forest.kids && Above(start.forest, head, a)
      ensures Visited(a)
      decreases start.forest.depth[n]
    {
      if n == head {
        AboveDepth(start.forest, head, a);
        AboveDepth(start.forest, a, head);
      } else if a != n {
        assert ParentLink(start.forest, n);
        VisitedIsUnderHead(start.forest.parent[n]);
        VisitedUpwards(a, start.forest.parent[n]);
      }
    }

    /** A selected node strictly below the visited `n` is an examined child of `n`, or lies
        strictly below a visited child, and then the sample is not a child of `n`. */
    lemma ShareStep(n: N, m: N) returns (c: N)
      requires Sound() && n in start.forest.kids && Visited(n) && m in Share(n)
      ensures c in start.forest.parent && start.forest.parent[c] == n && c in start.forest.kids[n]
      ensures (m == c && c in Before(start.forest.kids[n], sample)) ||
              (m in Share(c) && c !in better && sample !in start.forest.kids[n] && Visited(c))
    {
      c := ChildTowards(start.forest, n, m);
      if m != c {
        assert ParentLink(start.forest, m) && ParentLink(start.forest, c);
        var p := start.forest.parent[m];
        VisitedIsUnderHead(n);
        VisitedIsUnderHead(p);
        AboveTransitive(start.forest, head, n, c);
        VisitedUpwards(c, p);
        AboveDepth(start.forest, head, n);
      }
    }

    /** At the sample's parent only the children listed before the sample are compared. */
    lemma ShareAtParent(n: N)
      requires Sound() && n in start.forest.kids && Visited(n) && sample in start.forest.kids[n]
      ensures Share(n) == Taken(Before(start.forest.kids[n], sample))
    {
      forall m | m in Share(n)
        ensures m in Before(start.forest.kids[n], sample) && m in better
      {
        var c := ShareStep(n, m);
      }
      forall c | c in Before(start.forest.kids[n], sample) && c in better
        ensures c in Share(n)
      {
        ChildSelected(n, c);
      }
    }

    lemma ChildSelected(n: N, c: N)
      requires Sound() && n in start.forest.kids && Visited(n) && c in better
      requires c in Before(start.forest.kids[n], sample)
      ensures c in Selected() && c in Share(n)
    {
      assert KidLinks(start.forest, n);
      assert c in start.forest.kids[n];
      assert ParentLink(start.forest, c);
      assert Above(start.forest, n, n);
    }

    lemma ShareOfChild(n: N, c: N, m: N)
      requires Sound() && n in start.forest.kids && c in start.forest.kids[n] && m in Share(c)
      ensures m in Share(n)
    {
      assert KidLinks(start.forest, n);
      assert ParentLink(start.forest, c);
      assert Above(start.forest, n, n);
      AboveTransitive(start.forest, n, c, m);
      AboveDepth(start.forest, c, m);
    }

    // ----- one node of the walk, child by child

    /** The children in `cs` that move. */
    ghost function Taken(cs: seq<N>): set<N> {
      set c | c in cs && c in better
    }

    /** The selected nodes strictly below the nodes in `cs`. */
    ghost function Shares(cs: seq<N>): set<N>
      requires Sound()
    {
      set m | m in Selected() && exists c | c in cs :: m in Share(c)
    }

    /** The children in `cs` that move, in the order in which they are listed. */
    ghost function InTurn(cs: seq<N>): seq<N>
      decreases |cs|
    {
      if cs == [] then []
      else
        var last := cs[|cs| - 1];
        InTurn(cs[..|cs| - 1]) + (if last in better then [last] else [])
    }

    /** The nodes a visit of `n` moves, in the order in which it moves them: its own children first,
        then, unless the sample is one of them, what the visits of the children that stay move. */
    ghost function Order(n: N): seq<N>
      requires Sound() && n in start.forest.kids
      decreases |start.forest.kids| - start.forest.depth[n], 1, 0
    {
      var kids := start.forest.kids[n];
      if sample in kids then InTurn(Before(kids, sample))
      else
        WithoutMembers(kids, better.Keys);
        InTurn(kids) + Orders(n, Without(kids, better.Keys))
    }

    /** What the visits of some children of `n` move, one after the other. */
    ghost function Orders(n: N, cs: seq<N>): seq<N>
      requires Sound() && n in start.forest.kids && forall c | c in cs :: c in start.forest.kids[n]
      decreases |start.forest.kids| - start.forest.depth[n], 0, |cs|
    {
      if cs == [] then []
      else
        var last := cs[|cs| - 1];
        ChildBelow(n, last);
        Orders(n, cs[..|cs| - 1]) + Order(last)
    }

    /** `s` is the start with all the selected nodes hanging under the sample, in the order of the walk. */
    ghost predicate Finished(s: Snapshot<N>)
      requires Sound()
    {
      Reached(s, Selected()) && s.forest.kids[sample] == start.forest.kids[sample] + Order(head)
    }

    /** A pass has one outcome: lists, parents, depths, edges and costs. */
    lemma OneOutcome(s: Snapshot<N>, t: Snapshot<N>)
      requires Sound() && Finished(s) && Finished(t)
      ensures s == t
    {
      hide Rooted, Consistent, Sound, Selected, Adopted, Without, Order, ListsMoved, LinksMoved;
      SameLists(s, t);
      SameLinks(s, t);
      SameContents(s, t);
    }

    lemma SameLists(s: Snapshot<N>, t: Snapshot<N>)
      requires Sound() && Finished(s) && Finished(t)
      ensures s.forest.kids == t.forest.kids
    {
      hide Rooted, CostLink, Visited, Examined, Adopted, Without, Order, LinksMoved;
      forall p | p in start.forest.kids
        ensures s.forest.kids[p] == t.forest.kids[p]
      {
      }
    }

    lemma SameLinks(s: Snapshot<N>, t: Snapshot<N>)
      requires Sound() && Finished(s) && Finished(t)
      ensures s.forest.parent == t.forest.parent && s.edge == t.edge
    {
      hide Rooted, Consistent, Sound, Selected, Adopted, Without, Order, ListsMoved;
      ReachedKeys(s, Selected());
      ReachedKeys(t, Selected());
    }

    lemma ReachedKeys(s: Snapshot<N>, moved: set<N>)
      requires Sound() && Reached(s, moved)
      ensures Complete(s) && s.forest.kids.Keys == start.forest.kids.Keys && s.forest.root == start.forest.root
      ensures s.forest.parent.Keys == start.forest.parent.Keys && s.edge.Keys == start.forest.kids.Keys
      ensures moved <= Selected()
    {
      hide Selected, ListsMoved, LinksMoved;
    }

    lemma NoneTaken(moved: set<N>)
      ensures moved + Taken([]) == moved && InTurn([]) == []
    {
    }

    lemma NoShares(base: set<N>, cs: seq<N>)
      requires Sound()
      ensures cs[..0] == [] && base + Shares(cs[..0]) == base
    {
    }

    lemma NoOrders(n: N, cs: seq<N>)
      requires Sound() && n in start.forest.kids
      ensures cs[..0] == [] && Orders(n, []) == []
    {
    }

    lemma NextOrder(n: N, cs: seq<N>, i: nat)
      requires Sound() && n in start.forest.kids && (forall c | c in cs :: c in start.forest.kids[n]) && i < |cs|
      ensures cs[i] in start.forest.kids && forall c | c in cs[..i + 1] :: c in start.forest.kids[n]
      ensures Orders(n, cs[..i + 1]) == Orders(n, cs[..i]) + Order(cs[i])
    {
      hide Sound, Visited, Order, Rooted;
      assert cs[i] in cs;
      ChildBelow(n, cs[i]);
      assert cs[..i + 1][..i] == cs[..i];
    }

    lemma OrderParts(n: N)
      requires Sound() && n in start.forest.kids
      ensures var kids := start.forest.kids[n];
              if sample in kids then Order(n) == InTurn(Before(kids, sample))
              else
                var rest := Without(kids, better.Keys);
                && (forall c | c in rest :: c in kids)
                && Order(n) == InTurn(kids) + Orders(n, rest)
    {
      WithoutIsPart(start.forest.kids[n], better.Keys);
    }

    lemma ChildBelow(n: N, c: N)
      requires Sound() && n in start.forest.kids && c in start.forest.kids[n]
      ensures c in start.forest.parent && c in start.forest.kids && start.forest.parent[c] == n
      ensures Above(start.forest, n, c) && n != c
      ensures start.forest.depth[n] < start.forest.depth[c] < |start.forest.kids|
    {
      assert KidLinks(start.forest, n) && ParentLink(start.forest, c);
      assert Above(start.forest, n, n);
      DepthBound(start.forest, c);
    }

    lemma VisitedChild(n: N, c: N)
      requires Sound() && n in start.forest.kids && Visited(n) && c in start.forest.kids[n]
      requires sample !in start.forest.kids[n] && c !in better
      ensures c in start.forest.kids && Visited(c)
    {
      ChildBelow(n, c);
    }

    /** A child of `n` lies strictly below no child of `n`, and different children share nothing. */
    lemma SharesApart(n: N, c: N, d: N, m: N)
      requires Sound() && n in start.forest.kids && c in start.forest.kids[n] && d in start.forest.kids[n]
      requires m in Share(c)
      ensures m != d && (c != d ==> m !in Share(d))
    {
      ChildBelow(n, c);
      ChildBelow(n, d);
      if m == d {
        assert ParentLink(start.forest, d);
        AboveDepth(start.forest, c, n);
      } else if c != d {
        SiblingsDisjoint(start.forest, c, d, m);
      }
    }

    lemma ShareTotal(n: N)
      requires Sound() && n in start.forest.kids && Visited(n) && sample !in start.forest.kids[n]
      ensures var kids := start.forest.kids[n];
              Share(n) == Taken(kids) + Shares(Without(kids, better.Keys))
    {
      var kids := start.forest.kids[n];
      WithoutMembers(kids, better.Keys);
      forall m | m in Share(n)
        ensures m in Taken(kids) || m in Shares(Without(kids, better.Keys))
      {
        var c := ShareStep(n, m);
      }
      forall m | m in Taken(kids)
        ensures m in Share(n)
      {
        ChildSelected(n, m);
      }
      forall m | m in Shares(Without(kids, better.Keys))
        ensures m in Share(n)
      {
        var c :| c in Without(kids, better.Keys) && m in Share(c);
        ShareOfChild(n, c, m);
      }
    }

    /** Before the walk moves any child of `n`, the list in the tree is the original one. */
    lemma KidsUntouched(s: Snapshot<N>, moved: set<N>, n: N)
      requires Sound() && Reached(s, moved) && n in start.forest.kids && Visited(n) && moved !! Share(n)
      ensures n in s.forest.kids && s.forest.kids[n] == start.forest.kids[n] && moved <= Selected()
    {
      SampleNotVisited();
      var kids := start.forest.kids[n];
      forall c | c in kids
        ensures c !in moved
      {
        ChildBelow(n, c);
      }
      WithoutNothing(kids, moved);
    }

    /** From then on it is the original one less the improved children, however far the walk
        below them has come. */
    lemma KidsLeft(s: Snapshot<N>, moved: set<N>, n: N, rest: seq<N>)
      requires Sound() && n in start.forest.kids && Visited(n) && moved !! Share(n)
      requires sample !in start.forest.kids[n]
      requires forall c | c in rest :: c in start.forest.kids[n]
      requires Reached(s, moved + Taken(start.forest.kids[n]) + Shares(rest))
      ensures n in s.forest.kids && s.forest.kids[n] == Without(start.forest.kids[n], better.Keys)
    {
      SampleNotVisited();
      var kids := start.forest.kids[n];
      var all := moved + Taken(kids) + Shares(rest);
      forall c | c in kids
        ensures c in all <==> c in better.Keys
      {
        ChildBelow(n, c);
        if c in Shares(rest) {
          var d :| d in rest && c in Share(d);
          SharesApart(n, d, c, c);
        }
        assert c in moved ==> c in Share(n);
      }
      WithoutAgree(kids, all, better.Keys);
    }

    lemma WalkOn(s: Snapshot<N>, moved: set<N>, n: N, done: seq<N>)
      requires Sound() && n in start.forest.kids && Visited(n) && moved !! Share(n)
      requires sample !in start.forest.kids[n]
      requires done <= Without(start.forest.kids[n], better.Keys)
      requires Reached(s, moved + Taken(start.forest.kids[n]) + Shares(done))
      ensures n in s.forest.kids && s.forest.kids[n] == Without(start.forest.kids[n], better.Keys)
    {
      var rest := Without(start.forest.kids[n], better.Keys);
      WithoutMembers(start.forest.kids[n], better.Keys);
      assert forall c | c in done :: c in rest;
      KidsLeft(s, moved, n, done);
    }

    /** What the walk still has to do below the next child has not been touched yet. */
    lemma NextShareFresh(moved: set<N>, n: N, rest: seq<N>, i: nat)
      requires Sound() && n in start.forest.kids && Visited(n) && moved !! Share(n)
      requires sample !in start.forest.kids[n]
      requires rest == Without(start.forest.kids[n], better.Keys) && i < |rest|
      ensures rest[i] in start.forest.kids[n] && rest[i] !in better
      ensures moved + Taken(start.forest.kids[n]) + Shares(rest[..i]) !! Share(rest[i])
      ensures Shares(rest[..i + 1]) == Shares(rest[..i]) + Share(rest[i])
    {
      hide Sound, Visited, Share, Selected, Rooted, Above;
      var kids, c := start.forest.kids[n], rest[i];
      WithoutMembers(kids, better.Keys);
      assert c in rest;
      WithoutOnce(n, rest);
      forall m | m in Share(c)
        ensures m !in moved && m !in Taken(kids) && m !in Shares(rest[..i])
      {
        ShareOfChild(n, c, m);
        if m in Taken(kids) { SharesApart(n, c, m, m); }
        NotAmong(n, rest, i, m);
      }
      assert rest[..i + 1] == rest[..i] + [c];
      SharesGrow(rest[..i], c);
    }

    lemma WithoutOnce(n: N, rest: seq<N>)
      requires Sound() && n in start.forest.kids && rest == Without(start.forest.kids[n], better.Keys)
      ensures NoDuplicates(rest)
    {
      assert KidLinks(start.forest, n);
      WithoutMembers(start.forest.kids[n], better.Keys);
    }

    lemma NotAmong(n: N, rest: seq<N>, i: nat, m: N)
      requires Sound() && n in start.forest.kids && Visited(n) && sample !in start.forest.kids[n]
      requires rest == Without(start.forest.kids[n], better.Keys) && NoDuplicates(rest)
      requires i < |rest| && m in Share(rest[i])
      ensures m !in Shares(rest[..i])
    {
      hide Sound, Visited, Share, Selected, Rooted, Above;
      WithoutMembers(start.forest.kids[n], better.Keys);
      if m in Shares(rest[..i]) {
        var d :| d in rest[..i] && m in Share(d);
        assert d in rest && rest[i] in rest && d != rest[i];
        SharesApart(n, d, rest[i], m);
      }
    }

    lemma SharesGrow(cs: seq<N>, c: N)
      requires Sound()
      ensures Shares(cs + [c]) == Shares(cs) + Share(c)
    {
      hide Sound, Above, Visited;
      assert forall m | m in Shares(cs + [c]) :: m in Shares(cs) || m in Share(c);
      forall m | m in Shares(cs) ensures m in Shares(cs + [c]) {
        var d :| d in cs && m in Share(d);
        assert d in cs + [c];
      }
      assert c in cs + [c];
    }

    /** The next child the first loop looks at. */
    lemma NextChild(moved: set<N>, n: N, i: nat)
      requires Sound() && n in start.forest.kids && Visited(n) && moved !! Share(n)
      requires i < |start.forest.kids[n]| && sample !in start.forest.kids[n][..i] && moved <= Selected()
      ensures var kids := start.forest.kids[n]; var c := kids[i];
              && c in start.forest.parent && start.forest.parent[c] == n && c in start.forest.kids
              && Taken(kids[..i + 1]) == (if c in better then Taken(kids[..i]) + {c} else Taken(kids[..i]))
              && InTurn(kids[..i + 1]) == InTurn(kids[..i]) + (if c in better then [c] else [])
              && (c == sample ==> Before(kids, sample) == kids[..i])
              && (c != sample ==> Examined(c) && c !in moved + Taken(kids[..i]) &&
                                  sample !in kids[..i + 1])
    {
      hide Sound, Visited, Selected, Rooted, Above, Share;
      var kids := start.forest.kids[n];
      var c := kids[i];
      assert c in kids;
      ChildBelow(n, c);
      assert kids[..i + 1] == kids[..i] + [c];
      assert kids[..i + 1][..i] == kids[..i];
      BeforeReaches(kids, sample, i);
      if c != sample {
        assert c in Before(kids, sample);
        NotMovedYet(moved, n, c);
        ListedOnce(n);
      }
    }

    lemma NotMovedYet(moved: set<N>, n: N, c: N)
      requires Sound() && n in start.forest.kids && Visited(n) && moved !! Share(n) && moved <= Selected()
      requires c in start.forest.kids[n] && c in Before(start.forest.kids[n], sample)
      ensures c !in moved
    {
      if c in better { ChildSelected(n, c); }
    }

    lemma ListedOnce(n: N)
      requires Sound() && n in start.forest.kids
      ensures NoDuplicates(start.forest.kids[n])
    {
      assert KidLinks(start.forest, n);
    }
  }

  lemma {:induction false} BeforeReaches<N>(s: seq<N>, x: N, i: nat)
    requires i < |s| && x !in s[..i]
    ensures s[i] == x ==> Before(s, x) == s[..i]
    ensures s[i] != x ==> s[i] in Before(s, x)
  {
    if i > 0 {
      assert s[0] in s[..i];
      assert s[1..][..i - 1] == s[..i][1..];
      BeforeReaches(s[1..], x, i - 1);
    }
  }
}
