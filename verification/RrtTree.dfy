/** The RRT* search tree: nodes are objects shared through child lists, and a pass rewires them
    in place while it walks over them. */
module RrtTrees {
  import opened Options
  import opened Reals
  import opened Points
  import opened Environments
  import opened Forests
  import opened StarPasses
  import opened DepthFirst
  import opened Sorting

  /** A curve length as the geometry reports it. */
  datatype Length = Finite(value: real) | Infinite | NotANumber

  /** How many nodes an option search looks at, unless it looks at all of them. */
  const K_CLOSEST_NODES := 50

  datatype PointFetchMethod = RANDOM | NEAREST | NONE

  datatype DubinsPath = DubinsPath(beta0: real, beta2: real, straightDist: real)

  datatype RRTOption = RRTOption(length: Length, dubinsPath: DubinsPath, hasStraight: bool)

  /** The Dubins geometry, known only through its two queries. */
  datatype Dubins = Dubins(allOptions: (RRTPoint, RRTPoint, bool) -> seq<RRTOption>,
                           generatePoints: (RRTPoint, RRTPoint, DubinsPath, bool) -> seq<XYZCoord>)
  {
    /** Shorter before longer, finite before infinite. */
    ghost predicate SortedWhenAsked(options: seq<RRTOption>) {
      forall i, j | 0 <= i < j < |options| && options[j].length.Finite? ::
        && !options[i].length.Infinite?
        && (options[i].length.Finite? ==> options[i].length.value <= options[j].length.value)
    }

    /** `o` is one of the curves offered from `p` to `q`. */
    ghost predicate Offers(p: RRTPoint, q: RRTPoint, o: RRTOption) {
      o.length.Finite? && (o in allOptions(p, q, true) || o in allOptions(p, q, false))
    }

    /** A curve that is offered goes from `p` to `q`, altitude aside, and has no negative length. */
    ghost predicate Joins(p: RRTPoint, q: RRTPoint, o: RRTOption)
      requires o.length.Finite?
    {
      var path := generatePoints(p, q, o.dubinsPath, o.hasStraight);
      && o.length.value >= 0.0 && |path| > 0
      && Ground(path[0]) == Ground(p.coord) && Ground(path[|path| - 1]) == Ground(q.coord)
    }

    /** What the planner takes for granted: a curve has points, those that are offered join their
        ends, and sorting works. */
    ghost predicate Sane() {
      && (forall p, q, d, s :: |generatePoints(p, q, d, s)| > 0)
      && (forall p, q, o | Offers(p, q, o) :: Joins(p, q, o))
      && (forall p, q :: SortedWhenAsked(allOptions(p, q, true)))
    }
  }

  function RemovedFirst<N(==)>(s: seq<N>, x: N): seq<N> {
    if s == [] then [] else if s[0] == x then s[1..] else [s[0]] + RemovedFirst(s[1..], x)
  }

  lemma {:induction false} RemovedFirstOnly<N>(s: seq<N>, x: N)
    requires NoDuplicates(s)
    ensures RemovedFirst(s, x) == Without(s, {x})
  {
    if s != [] {
      if s[0] == x {
        WithoutNothing(s[1..], {x});
      } else {
        RemovedFirstOnly(s[1..], x);
      }
    }
  }

  lemma {:induction false} RemovedAt<N>(s: seq<N>, x: N, i: nat)
    requires i <= |s| && x !in s[..i] && (i < |s| ==> s[i] == x)
    ensures RemovedFirst(s, x) == if i < |s| then s[..i] + s[i + 1..] else s
  {
    if i > 0 {
      assert s[0] in s[..i];
      assert s[1..][..i - 1] == s[..i][1..];
      RemovedAt(s[1..], x, i - 1);
    }
  }

  class RRTNode {
    const point: RRTPoint
    var reachable: seq<RRTNode>
    var cost: real
    var pathLength: real
    var path: seq<XYZCoord>

    constructor (point: RRTPoint, cost: real, pathLength: real, path: seq<XYZCoord>)
      ensures this.point == point && reachable == []
      ensures this.cost == cost && this.pathLength == pathLength && this.path == path
    {
      this.point, this.cost, this.pathLength, this.path := point, cost, pathLength, path;
      reachable := [];
    }

    method AddReachable(newNode: RRTNode)
      modifies this`reachable
      ensures reachable == old(reachable) + [newNode]
    {
      reachable := reachable + [newNode];
    }

    method RemoveReachable(oldNode: RRTNode)
      modifies this`reachable
      ensures reachable == RemovedFirst(old(reachable), oldNode)
    {
      var i := 0;
      while i < |reachable|
        invariant 0 <= i <= |reachable| && reachable == old(reachable)
        invariant oldNode !in reachable[..i]
      {
        if reachable[i] == oldNode {
          RemovedAt(reachable, oldNode, i);
          reachable := reachable[..i] + reachable[i + 1..];
          return;
        }
        i := i + 1;
      }
      RemovedAt(reachable, oldNode, i);
    }
  }

  /** The child lists in the heap are those of `f`. */
  ghost predicate Holds(f: Forest<RRTNode>)
    reads f.kids.Keys`reachable
  {
    forall n | n in f.kids :: n.reachable == f.kids[n]
  }

  /** `n` is in the subtree of one of the first `i` children of `a`. */
  ghost predicate UnderFirst<N>(f: Forest<N>, a: N, i: nat, n: N)
    requires Rooted(f) && a in f.kids && i <= |f.kids[a]| && n in f.kids
  {
    exists j | 0 <= j < i :: Above(f, f.kids[a][j], n)
  }

  lemma UnderFirstStep<N>(f: Forest<N>, a: N, i: nat, n: N)
    requires Rooted(f) && a in f.kids && i < |f.kids[a]| && n in f.kids
    ensures f.kids[a][i] in f.parent && f.parent[f.kids[a][i]] == a
    ensures UnderFirst(f, a, i + 1, n) <==> UnderFirst(f, a, i, n) || Above(f, f.kids[a][i], n)
    ensures UnderFirst(f, a, i, n) ==> !Above(f, f.kids[a][i], n)
  {
    assert KidLinks(f, a);
    var c := f.kids[a][i];
    assert c in f.kids[a];
    if UnderFirst(f, a, i, n) {
      var j :| 0 <= j < i && Above(f, f.kids[a][j], n);
      assert f.kids[a][j] in f.kids[a];
      SiblingsDisjoint(f, f.kids[a][j], c, n);
    }
  }

  /** A node under the first `i` children has its parent there too, or is a child of `a`. */
  lemma UnderFirstParent<N>(f: Forest<N>, a: N, i: nat, n: N)
    requires Rooted(f) && a in f.kids && i <= |f.kids[a]| && n in f.kids && UnderFirst(f, a, i, n)
    ensures n in f.parent && f.parent[n] in f.kids && n != a && Above(f, a, n)
    ensures f.parent[n] == a || UnderFirst(f, a, i, f.parent[n])
  {
    var j :| 0 <= j < i && Above(f, f.kids[a][j], n);
    var c := f.kids[a][j];
    assert KidLinks(f, a) && c in f.kids[a];
    assert ParentLink(f, c);
    AboveDepth(f, c, n);
    assert ParentLink(f, n);
    assert Above(f, a, a);
    AboveTransitive(f, a, c, n);
  }

  lemma UnderAll<N>(f: Forest<N>, a: N, n: N)
    requires Rooted(f) && a in f.kids && n in f.kids && Above(f, a, n) && n != a
    ensures UnderFirst(f, a, |f.kids[a]|, n)
  {
    var c := ChildTowards(f, a, n);
  }

  // ----- routes through the sample

  /** The first usable option of a sorted list that is shorter than `budget`: the scan gives up at
      the first option that is not finite or not shorter, and skips the ones out of bounds. */
  ghost function BestRoute(dubins: Dubins, airspace: Environment, p: RRTPoint, q: RRTPoint,
                           options: seq<RRTOption>, budget: real): Option<Edge>
  {
    if options == [] || !options[0].length.Finite? || options[0].length.value >= budget then None
    else
      var path := dubins.generatePoints(p, q, options[0].dubinsPath, options[0].hasStraight);
      if airspace.PathInBounds(path) then Some(Edge(options[0].length.value, path))
      else BestRoute(dubins, airspace, p, q, options[1..], budget)
  }

  lemma BestRouteStep(dubins: Dubins, airspace: Environment, p: RRTPoint, q: RRTPoint,
                      options: seq<RRTOption>, i: nat, budget: real)
    requires i < |options|
    ensures BestRoute(dubins, airspace, p, q, options[i..], budget) ==
            if !options[i].length.Finite? || options[i].length.value >= budget then None
            else
              var path := dubins.generatePoints(p, q, options[i].dubinsPath, options[i].hasStraight);
              if airspace.PathInBounds(path) then Some(Edge(options[i].length.value, path))
              else BestRoute(dubins, airspace, p, q, options[i + 1..], budget)
  {
    assert options[i..][1..] == options[i + 1..];
  }

  lemma BestRouteEnd(dubins: Dubins, airspace: Environment, p: RRTPoint, q: RRTPoint,
                     options: seq<RRTOption>, budget: real)
    ensures BestRoute(dubins, airspace, p, q, options[|options|..], budget) == None
  {
  }

  /** One of the curves offered from `p` to `q`, and it passed the path check. */
  ghost predicate Flyable(dubins: Dubins, airspace: Environment, p: RRTPoint, q: RRTPoint, edge: Edge) {
    airspace.PathInBounds(edge.path) &&
    exists o: RRTOption :: dubins.Offers(p, q, o) && o.length == Finite(edge.length) &&
                           edge.path == dubins.generatePoints(p, q, o.dubinsPath, o.hasStraight)
  }

  lemma {:induction false} BestRouteFits(dubins: Dubins, airspace: Environment, p: RRTPoint, q: RRTPoint,
                                         options: seq<RRTOption>, budget: real)
    requires dubins.Sane() && forall o | o in options && o.length.Finite? :: dubins.Offers(p, q, o)
    ensures var best := BestRoute(dubins, airspace, p, q, options, budget);
            best.Some? ==> 0.0 <= best.value.length < budget && Flyable(dubins, airspace, p, q, best.value)
  {
    if options != [] {
      assert options[0] in options;
      assert options[0].length.Finite? ==> dubins.Joins(p, q, options[0]);
      BestRouteFits(dubins, airspace, p, q, options[1..], budget);
    }
  }

  /** A sorted list's best route is as short as any of its curves that is finite and in bounds; and it
      is missing only if none is short enough. A length that is not a number ends the scan. */
  lemma {:induction false} BestRouteIsShortest(dubins: Dubins, airspace: Environment, p: RRTPoint, q: RRTPoint,
                                               options: seq<RRTOption>, budget: real, k: nat)
    requires dubins.SortedWhenAsked(options) && k < |options| && options[k].length.Finite?
    requires forall i | 0 <= i < k :: !options[i].length.NotANumber?
    requires airspace.PathInBounds(dubins.generatePoints(p, q, options[k].dubinsPath, options[k].hasStraight))
    ensures var best := BestRoute(dubins, airspace, p, q, options, budget);
            if best.Some? then best.value.length <= options[k].length.value
            else options[k].length.value >= budget
  {
    if k > 0 {
      assert options[0].length.Finite? && options[0].length.value <= options[k].length.value;
      BestRouteIsShortest(dubins, airspace, p, q, options[1..], budget, k - 1);
    }
  }

  ghost function Members<N>(s: seq<N>): set<N> {
    set n | n in s
  }

  lemma {:induction false} MembersAtMost<N>(s: seq<N>)
    ensures |Members(s)| <= |s|
    ensures |Members(s)| == |s| ==> NoDuplicates(s)
  {
    if s != [] {
      MembersAtMost(s[1..]);
      assert Members(s) == {s[0]} + Members(s[1..]);
      if s[0] in s[1..] {
        assert Members(s) == Members(s[1..]);
      }
    }
  }

  lemma {:induction false} MembersCounted<N>(s: seq<N>)
    requires NoDuplicates(s)
    ensures |Members(s)| == |s|
  {
    if s != [] {
      MembersCounted(s[1..]);
      assert Members(s) == {s[0]} + Members(s[1..]);
    }
  }

  lemma MembersJoin<N>(s: seq<N>, t: seq<N>)
    ensures Members(s + t) == Members(s) + Members(t)
    ensures NoDuplicates(s) && NoDuplicates(t) && Members(s) !! Members(t) ==> NoDuplicates(s + t)
  {
    if NoDuplicates(s) && NoDuplicates(t) && Members(s) !! Members(t) {
      var st := s + t;
      forall i, j | 0 <= i < j < |st|
        ensures st[i] != st[j]
      {
        assert st[i] in (if i < |s| then Members(s) else Members(t));
        assert st[j] in (if j < |s| then Members(s) else Members(t));
      }
    }
  }

  ghost function UnderSet<N>(f: Forest<N>, a: N, i: nat): set<N>
    requires Rooted(f) && a in f.kids && i <= |f.kids[a]|
  {
    set n | n in f.kids && UnderFirst(f, a, i, n)
  }

  lemma UnderSetSteps<N>(f: Forest<N>, a: N, i: nat)
    requires Rooted(f) && a in f.kids && i <= |f.kids[a]|
    ensures UnderSet(f, a, 0) == {}
    ensures i < |f.kids[a]| ==>
              f.kids[a][i] in f.parent && f.kids[a][i] in f.kids &&
              f.depth[a] < f.depth[f.kids[a][i]] < |f.kids| &&
              UnderSet(f, a, i + 1) == UnderSet(f, a, i) + Below(f, f.kids[a][i])
    ensures i == |f.kids[a]| ==> Below(f, a) == {a} + UnderSet(f, a, i)
  {
    if i < |f.kids[a]| {
      forall n | n in f.kids
        ensures UnderFirst(f, a, i + 1, n) <==> UnderFirst(f, a, i, n) || Above(f, f.kids[a][i], n)
      {
        UnderFirstStep(f, a, i, n);
      }
      assert KidLinks(f, a) && f.kids[a][i] in f.kids[a];
      assert ParentLink(f, f.kids[a][i]);
      DepthBound(f, f.kids[a][i]);
    } else {
      assert Above(f, a, a);
      forall n | n in f.kids
        ensures Above(f, a, n) <==> n == a || UnderFirst(f, a, i, n)
      {
        if Above(f, a, n) && n != a { UnderAll(f, a, n); }
        if UnderFirst(f, a, i, n) { UnderFirstParent(f, a, i, n); }
      }
    }
  }

  // ----- cost bubble-down

  /** `after` is `before` with the subtree at `a` summed afresh from cost `base` at `a`. */
  ghost predicate Summed<N>(f: Forest<N>, length: map<N, real>, before: map<N, real>, after: map<N, real>,
                            a: N, base: real)
    requires Rooted(f) && a in f.kids && length.Keys == f.kids.Keys
  {
    && before.Keys == f.kids.Keys && after.Keys == f.kids.Keys
    && after[a] == base
    && (forall n | n in f.kids && !Above(f, a, n) :: after[n] == before[n])
    && (forall n | n in f.kids && Above(f, a, n) && n != a :: Adds(f, length, after, n))
  }

  ghost predicate Adds<N>(f: Forest<N>, length: map<N, real>, cost: map<N, real>, n: N)
    requires n in length
  {
    n in f.parent && f.parent[n] in cost && n in cost && cost[n] == cost[f.parent[n]] + length[n]
  }

  /** The same with only the first `i` children's subtrees done. */
  ghost predicate SummedUpTo<N>(f: Forest<N>, length: map<N, real>, before: map<N, real>, after: map<N, real>,
                                a: N, base: real, i: nat)
    requires Rooted(f) && a in f.kids && length.Keys == f.kids.Keys && i <= |f.kids[a]|
  {
    && before.Keys == f.kids.Keys && after.Keys == f.kids.Keys
    && after[a] == base
    && (forall n | n in f.kids && n != a && !UnderFirst(f, a, i, n) :: after[n] == before[n])
    && (forall n | n in f.kids && UnderFirst(f, a, i, n) :: Adds(f, length, after, n))
  }

  lemma SummedNothing<N>(f: Forest<N>, length: map<N, real>, before: map<N, real>, a: N, base: real)
    requires Rooted(f) && a in f.kids && length.Keys == f.kids.Keys && before.Keys == f.kids.Keys
    ensures SummedUpTo(f, length, before, before[a := base], a, base, 0)
  {
  }

  lemma SummedStep<N>(f: Forest<N>, length: map<N, real>, before: map<N, real>, mid: map<N, real>,
                      after: map<N, real>, a: N, base: real, i: nat)
    requires Rooted(f) && a in f.kids && length.Keys == f.kids.Keys && i < |f.kids[a]|
    requires SummedUpTo(f, length, before, mid, a, base, i)
    requires f.kids[a][i] in length && Summed(f, length, mid, after, f.kids[a][i], base + length[f.kids[a][i]])
    ensures SummedUpTo(f, length, before, after, a, base, i + 1) && after[a] == base
  {
    var c := f.kids[a][i];
    assert KidLinks(f, a) && c in f.kids[a] && ParentLink(f, c);
    if Above(f, c, a) { AboveDepth(f, c, a); }
    forall n | n in f.kids && n != a && !UnderFirst(f, a, i + 1, n)
      ensures after[n] == before[n]
    {
      UnderFirstStep(f, a, i, n);
    }
    forall n | n in f.kids && UnderFirst(f, a, i + 1, n)
      ensures Adds(f, length, after, n)
    {
      UnderFirstStep(f, a, i, n);
      if UnderFirst(f, a, i, n) {
        UnderFirstParent(f, a, i, n);
        var p := f.parent[n];
        if p != a { UnderFirstStep(f, a, i, p); }
        assert Adds(f, length, mid, n);
      }
    }
  }

  lemma SummedWhole<N>(f: Forest<N>, length: map<N, real>, before: map<N, real>, after: map<N, real>,
                       a: N, base: real)
    requires Rooted(f) && a in f.kids && length.Keys == f.kids.Keys
    requires SummedUpTo(f, length, before, after, a, base, |f.kids[a]|)
    ensures Summed(f, length, before, after, a, base)
  {
    assert Above(f, a, a);
    forall n | n in f.kids
      ensures Above(f, a, n) && n != a <==> UnderFirst(f, a, |f.kids[a]|, n)
    {
      if Above(f, a, n) && n != a { UnderAll(f, a, n); }
      if UnderFirst(f, a, |f.kids[a]|, n) { UnderFirstParent(f, a, |f.kids[a]|, n); }
    }
  }

  ghost function Costs(nodes: set<RRTNode>): map<RRTNode, real>
    reads nodes`cost
  {
    map n | n in nodes :: n.cost
  }

  ghost function Lengths(nodes: set<RRTNode>): map<RRTNode, real>
    reads nodes`pathLength
  {
    map n | n in nodes :: n.pathLength
  }

  /** Gives every node of the subtree at `current` its parent's cost plus its own length. */
  method ReassignCostsRecursive(current: RRTNode, pathCost: real,
                                ghost f: Forest<RRTNode>, ghost length: map<RRTNode, real>)
    requires Rooted(f) && current in f.parent && Holds(f) && length == Lengths(f.kids.Keys)
    modifies f.kids.Keys`cost
    ensures Summed(f, length, old(Costs(f.kids.Keys)), Costs(f.kids.Keys),
                   current, pathCost + length[current])
    decreases |f.kids| - f.depth[current]
  {
    hide Summed, SummedUpTo, UnderFirst, KidLinks;
    ghost var nodes, before, base := f.kids.Keys, Costs(f.kids.Keys), pathCost + length[current];
    current.cost := pathCost + current.pathLength;
    SummedNothing(f, length, before, current, base);
    assert Costs(nodes) == before[current := base];
    var i := 0;
    while i < |current.reachable|
      invariant 0 <= i <= |current.reachable| && Holds(f)
      invariant SummedUpTo(f, length, before, Costs(nodes), current, base, i)
      invariant current.cost == base
    {
      ReassignChild(current, i, before, base, f, length);
      i := i + 1;
    }
    SummedWhole(f, length, before, Costs(nodes), current, base);
  }

  /** One turn of the bubble-down loop: the `i`th child's subtree. */
  method ReassignChild(current: RRTNode, i: nat, ghost before: map<RRTNode, real>, ghost base: real,
                       ghost f: Forest<RRTNode>, ghost length: map<RRTNode, real>)
    requires Rooted(f) && current in f.kids && Holds(f) && length == Lengths(f.kids.Keys)
    requires i < |current.reachable| && current.cost == base
    requires SummedUpTo(f, length, before, Costs(f.kids.Keys), current, base, i)
    modifies f.kids.Keys`cost
    ensures SummedUpTo(f, length, before, Costs(f.kids.Keys), current, base, i + 1)
    ensures current.cost == base
    decreases |f.kids| - f.depth[current], 0
  {
    hide Summed, SummedUpTo, UnderFirst;
    var neighbor := current.reachable[i];
    assert KidLinks(f, current) && ParentLink(f, neighbor);
    DepthBound(f, neighbor);
    ghost var mid := Costs(f.kids.Keys);
    ReassignCostsRecursive(neighbor, current.cost, f, length);
    SummedStep(f, length, before, mid, Costs(f.kids.Keys), current, base, i);
    assert current.cost == Costs(f.kids.Keys)[current];
  }

  method ReassignCosts(changed: RRTNode, ghost f: Forest<RRTNode>, ghost length: map<RRTNode, real>)
    requires Rooted(f) && changed in f.kids && Holds(f) && length == Lengths(f.kids.Keys)
    modifies f.kids.Keys`cost
    ensures Summed(f, length, old(Costs(f.kids.Keys)), Costs(f.kids.Keys), changed, old(changed.cost))
  {
    hide Summed, SummedUpTo, UnderFirst;
    ghost var nodes, before, base := f.kids.Keys, Costs(f.kids.Keys), changed.cost;
    SummedNothing(f, length, before, changed, base);
    assert Costs(nodes) == before[changed := base];
    var i := 0;
    while i < |changed.reachable|
      invariant 0 <= i <= |changed.reachable| && Holds(f)
      invariant SummedUpTo(f, length, before, Costs(nodes), changed, base, i)
      invariant changed.cost == base
    {
      ReassignChild(changed, i, before, base, f, length);
      i := i + 1;
    }
    SummedWhole(f, length, before, Costs(nodes), changed, base);
  }

  // ----- the tree

  /** The nodes' contents, read off the heap. */
  ghost function Edges(nodes: set<RRTNode>): map<RRTNode, Edge>
    reads nodes`pathLength, nodes`path
  {
    map n | n in nodes :: Edge(n.pathLength, n.path)
  }

  lemma LengthsOfEdges(nodes: set<RRTNode>)
    ensures Lengths(nodes).Keys == Edges(nodes).Keys == nodes
    ensures forall n | n in nodes :: Lengths(nodes)[n] == Edges(nodes)[n].length == n.pathLength
  {
  }

  ghost function Contents(nodes: set<RRTNode>, f: Forest<RRTNode>): Snapshot<RRTNode>
    reads nodes`cost, nodes`pathLength, nodes`path
  {
    Snapshot(f, Costs(nodes), Edges(nodes))
  }

  lemma RelinkShape<N>(f: Forest<N>, c: N, q: N)
    requires Rooted(f) && c in f.parent && q in f.kids && !Above(f, c, q)
    ensures Rooted(Reparented(f, c, q))
    ensures Reparented(f, c, q).kids.Keys == f.kids.Keys && Reparented(f, c, q).root == f.root
    ensures f.parent[c] in f.kids && NoDuplicates(f.kids[f.parent[c]])
    ensures Reparented(f, c, q).kids == MovedKids(f, c, q)
  {
    ReparentedRooted(f, c, q);
    assert ParentLink(f, c) && KidLinks(f, f.parent[c]);
  }

  /** Takes `current` out of one child list and puts it at the end of another. */
  method Relink(current: RRTNode, previousParent: RRTNode, newParent: RRTNode, ghost f: Forest<RRTNode>)
    requires Rooted(f) && Holds(f) && current in f.parent && f.parent[current] == previousParent
    requires newParent in f.kids && previousParent in f.kids && !Above(f, current, newParent)
    modifies previousParent`reachable, newParent`reachable
    ensures Rooted(Reparented(f, current, newParent)) && Holds(Reparented(f, current, newParent))
  {
    hide Rooted, Above, Reparented;
    RelinkShape(f, current, newParent);
    RemovedFirstOnly(previousParent.reachable, current);
    previousParent.RemoveReachable(current);
    newParent.AddReachable(current);
  }

  /** Costs are consistent again once the moved subtree has been summed afresh. */
  lemma RewiredConsistent<N>(s: Snapshot<N>, c: N, q: N, edge: Edge, length: map<N, real>, after: map<N, real>)
    requires Consistent(s) && c in s.forest.parent && q in s.forest.kids && !Above(s.forest, c, q)
    requires Rooted(Reparented(s.forest, c, q)) && edge.length >= 0.0
    requires length.Keys == s.forest.kids.Keys
    requires forall n | n in length :: length[n] == if n == c then edge.length else s.edge[n].length
    requires Summed(Reparented(s.forest, c, q), length, s.cost[c := s.cost[q] + edge.length], after,
                    c, s.cost[q] + edge.length)
    ensures Consistent(Snapshot(Reparented(s.forest, c, q), after, s.edge[c := edge]))
    ensures after[s.forest.root] == s.cost[s.forest.root]
  {
    hide Rooted, Above, CostLink, Reparented, Summed;
    var g := Reparented(s.forest, c, q);
    var t := Snapshot(g, after, s.edge[c := edge]);
    ConsistentParts(s);
    MovedShape(s.forest, c, q);
    SummedKeys(g, length, s.cost[c := s.cost[q] + edge.length], after, c, s.cost[q] + edge.length);
    assert Complete(t);
    forall n | n in g.parent
      ensures CostLink(t, n)
    {
      RewiredLink(s, c, q, edge, length, after, n);
    }
    RootNotBelow(g, c);
    SummedElsewhere(g, length, s.cost[c := s.cost[q] + edge.length], after, c, s.cost[q] + edge.length, g.root);
  }

  lemma MovedShape<N>(f: Forest<N>, c: N, q: N)
    requires Rooted(f) && c in f.parent && q in f.kids && Rooted(Reparented(f, c, q))
    ensures Reparented(f, c, q).parent == f.parent[c := q] && Reparented(f, c, q).root == f.root != c
    ensures Reparented(f, c, q).kids.Keys == f.kids.Keys && f.root in f.kids && c in f.kids
    ensures f.parent.Keys == f.kids.Keys - {f.root} && forall n | n in f.parent :: f.parent[n] in f.kids
  {
    assert forall n | n in f.parent :: ParentLink(f, n);
  }

  lemma SummedKeys<N>(f: Forest<N>, length: map<N, real>, before: map<N, real>, after: map<N, real>, a: N, base: real)
    requires Rooted(f) && a in f.kids && length.Keys == f.kids.Keys && Summed(f, length, before, after, a, base)
    ensures after.Keys == before.Keys == f.kids.Keys && after[a] == base
  {
  }

  lemma SummedElsewhere<N>(f: Forest<N>, length: map<N, real>, before: map<N, real>, after: map<N, real>,
                           a: N, base: real, n: N)
    requires Rooted(f) && a in f.kids && length.Keys == f.kids.Keys && Summed(f, length, before, after, a, base)
    requires n in f.kids && !Above(f, a, n)
    ensures after.Keys == before.Keys == f.kids.Keys && after[n] == before[n]
  {
  }

  lemma SummedBelow<N>(f: Forest<N>, length: map<N, real>, before: map<N, real>, after: map<N, real>,
                       a: N, base: real, n: N)
    requires Rooted(f) && a in f.kids && length.Keys == f.kids.Keys && Summed(f, length, before, after, a, base)
    requires n in f.kids && Above(f, a, n) && n != a
    ensures Adds(f, length, after, n)
  {
  }

  lemma RootNotBelow<N>(f: Forest<N>, c: N)
    requires Rooted(f) && c in f.parent
    ensures f.root in f.kids && c in f.kids && !Above(f, c, f.root)
  {
    assert ParentLink(f, c);
    if Above(f, c, f.root) { AboveDepth(f, c, f.root); }
  }

  lemma ParentElsewhere<N>(f: Forest<N>, c: N, n: N)
    requires Rooted(f) && c in f.kids && n in f.parent && n in f.kids && !Above(f, c, n)
    ensures f.parent[n] in f.kids && !Above(f, c, f.parent[n])
  {
    assert ParentLink(f, n);
  }

  /** A node's own link is right again, whether it was moved, lies below the moved node, or elsewhere. */
  lemma RewiredLink<N>(s: Snapshot<N>, c: N, q: N, edge: Edge, length: map<N, real>, after: map<N, real>, n: N)
    requires Consistent(s) && c in s.forest.parent && q in s.forest.kids && !Above(s.forest, c, q)
    requires Rooted(Reparented(s.forest, c, q)) && edge.length >= 0.0
    requires length.Keys == s.forest.kids.Keys
    requires forall m | m in length :: length[m] == if m == c then edge.length else s.edge[m].length
    requires Summed(Reparented(s.forest, c, q), length, s.cost[c := s.cost[q] + edge.length], after,
                    c, s.cost[q] + edge.length)
    requires Complete(Snapshot(Reparented(s.forest, c, q), after, s.edge[c := edge]))
    requires n in Reparented(s.forest, c, q).parent
    ensures CostLink(Snapshot(Reparented(s.forest, c, q), after, s.edge[c := edge]), n)
  {
    hide Rooted, Above, Reparented, Summed;
    var f, g, before := s.forest, Reparented(s.forest, c, q), s.cost[c := s.cost[q] + edge.length];
    ConsistentParts(s);
    MovedShape(f, c, q);
    SummedKeys(g, length, before, after, c, before[c]);
    if n == c {
      ReparentedBelow(f, c, q, q);
      SummedElsewhere(g, length, before, after, c, before[c], q);
      SelfAbove(f, c);
    } else {
      assert CostLink(s, n);
      if Above(g, c, n) {
        SummedBelow(g, length, before, after, c, before[c], n);
      } else {
        ParentElsewhere(g, c, n);
        SummedElsewhere(g, length, before, after, c, before[c], n);
        SummedElsewhere(g, length, before, after, c, before[c], g.parent[n]);
        SelfAbove(g, c);
      }
    }
  }

  lemma SelfAbove<N>(f: Forest<N>, c: N)
    requires Rooted(f) && c in f.kids
    ensures Above(f, c, c)
  {
  }

  method SetEdge(current: RRTNode, newParent: RRTNode, path: seq<XYZCoord>, pathCost: real,
                 ghost nodes: set<RRTNode>, ghost cost: map<RRTNode, real>, ghost edge: map<RRTNode, Edge>)
    requires current in nodes && newParent in nodes && current != newParent
    requires Costs(nodes) == cost && Edges(nodes) == edge
    modifies current`path, current`cost, current`pathLength
    ensures newParent in cost
    ensures Costs(nodes) == cost[current := cost[newParent] + pathCost]
    ensures Edges(nodes) == edge[current := Edge(pathCost, path)]
  {
    current.path := path;
    current.cost := newParent.cost + pathCost;
    current.pathLength := pathCost;
  }

  /** The heap holds `was`. */
  ghost predicate Matches(was: Snapshot<RRTNode>)
    reads was.forest.kids.Keys
  {
    Holds(was.forest) && Costs(was.forest.kids.Keys) == was.cost && Edges(was.forest.kids.Keys) == was.edge
  }

  /** `was` with `c` hung under `q` by `edge`, the costs below `c` not yet brought up to date. */
  ghost function Hung<N>(was: Snapshot<N>, c: N, q: N, edge: Edge): Snapshot<N>
    requires Complete(was) && c in was.forest.parent && q in was.forest.kids
  {
    Snapshot(Reparented(was.forest, c, q), was.cost[c := was.cost[q] + edge.length], was.edge[c := edge])
  }

  lemma HungShape<N>(was: Snapshot<N>, c: N, q: N, edge: Edge)
    requires Complete(was) && c in was.forest.parent && q in was.forest.kids && !Above(was.forest, c, q)
    ensures c in was.forest.kids && c != q
    ensures Rooted(was.forest) && was.cost.Keys == was.edge.Keys == was.forest.kids.Keys
    ensures Hung(was, c, q, edge) == Snapshot(Reparented(was.forest, c, q),
                                              was.cost[c := was.cost[q] + edge.length], was.edge[c := edge])
    ensures Complete(Hung(was, c, q, edge)) && Rooted(Reparented(was.forest, c, q))
    ensures Hung(was, c, q, edge).forest.kids.Keys == was.forest.kids.Keys
    ensures Hung(was, c, q, edge).forest.root == was.forest.root
  {
    hide Reparented, Rooted, Above;
    ReparentedRooted(was.forest, c, q);
    MovedShape(was.forest, c, q);
    SelfAbove(was.forest, c);
  }

  /** The first half of a rewiring: the lists and the node's own edge, before its cost is passed on. */
  method MoveSubtree(current: RRTNode, previousParent: RRTNode, newParent: RRTNode,
                     path: seq<XYZCoord>, pathCost: real, ghost was: Snapshot<RRTNode>)
    requires Complete(was) && Matches(was)
    requires current in was.forest.parent && was.forest.parent[current] == previousParent
    requires newParent in was.forest.kids && previousParent in was.forest.kids
    requires !Above(was.forest, current, newParent)
    modifies was.forest.kids.Keys
    ensures Matches(Hung(was, current, newParent, Edge(pathCost, path)))
  {
    hide Rooted, Above, Complete, Reparented, Hung, Holds, Edges, Costs;
    ghost var nodes, edge := was.forest.kids.Keys, Edge(pathCost, path);
    HungShape(was, current, newParent, edge);
    Relink(current, previousParent, newParent, was.forest);
    SetEdge(current, newParent, path, pathCost, nodes, was.cost, was.edge);
  }

  /** The second half: the costs below the moved node. */
  method Resum(current: RRTNode, newParent: RRTNode, ghost was: Snapshot<RRTNode>, ghost edge: Edge)
    requires Consistent(was) && current in was.forest.parent && newParent in was.forest.kids
    requires !Above(was.forest, current, newParent) && edge.length >= 0.0
    requires Matches(Hung(was, current, newParent, edge))
    modifies was.forest.kids.Keys`cost
    ensures Holds(Reparented(was.forest, current, newParent))
    ensures Consistent(Contents(was.forest.kids.Keys, Reparented(was.forest, current, newParent)))
    ensures Edges(was.forest.kids.Keys) == was.edge[current := edge]
    ensures Costs(was.forest.kids.Keys)[was.forest.root] == was.cost[was.forest.root]
  {
    hide Rooted, Above, Complete, Consistent, Reparented, Hung, Holds, Summed, Lengths, Edges;
    ConsistentParts(was);
    HungShape(was, current, newParent, edge);
    ghost var g, nodes := Reparented(was.forest, current, newParent), was.forest.kids.Keys;
    ghost var length := Lengths(nodes);
    LengthsOfEdges(nodes);
    assert Edges(nodes) == was.edge[current := edge];
    assert Costs(nodes) == was.cost[current := was.cost[newParent] + edge.length];
    assert current.cost == Costs(nodes)[current];
    assert forall n | n in length :: length[n] == was.edge[current := edge][n].length;
    ReassignCosts(current, g, length);
    RewiredConsistent(was, current, newParent, edge, length, Costs(nodes));
  }

  method AppendChild(anchor: RRTNode, newNode: RRTNode, ghost was: Snapshot<RRTNode>)
    requires Complete(was) && Matches(was) && anchor in was.forest.kids && newNode !in was.forest.kids
    requires newNode.reachable == []
    requires WithLeafShape(was, anchor, newNode, Edge(newNode.pathLength, newNode.path))
    requires newNode.cost == anchor.cost + newNode.pathLength
    modifies anchor`reachable
    ensures anchor.reachable == old(anchor.reachable) + [newNode]
    ensures Holds(Grown(was.forest, anchor, newNode))
    ensures Contents(was.forest.kids.Keys + {newNode}, Grown(was.forest, anchor, newNode)) ==
            WithLeaf(was, anchor, newNode, Edge(newNode.pathLength, newNode.path))
  {
    hide Rooted, Grown, WithLeaf, Complete, Costs, Edges;
    anchor.AddReachable(newNode);
    assert Costs(was.forest.kids.Keys) == was.cost && Edges(was.forest.kids.Keys) == was.edge;
    CostAt(was.forest.kids.Keys, anchor);
    OneMoreNode(was.forest.kids.Keys, newNode);
  }

  lemma CostAt(nodes: set<RRTNode>, n: RRTNode)
    requires n in nodes
    ensures n in Costs(nodes) && Costs(nodes)[n] == n.cost
  {
  }

  lemma OneMoreNode(nodes: set<RRTNode>, n: RRTNode)
    ensures Costs(nodes + {n}) == Costs(nodes)[n := n.cost]
    ensures Edges(nodes + {n}) == Edges(nodes)[n := Edge(n.pathLength, n.path)]
  {
  }

  class RRTTree {
    const root: RRTNode
    const airspace: Environment
    const dubins: Dubins
    var currentHead: RRTNode
    var treeSize: int

    /** The shape of the tree, kept in step with the child lists in the heap. */
    ghost var forest: Forest<RRTNode>

    ghost function Nodes(): set<RRTNode>
      reads this`forest
    {
      forest.kids.Keys
    }

    ghost function View(): Snapshot<RRTNode>
      reads this`forest, Nodes()
    {
      Contents(Nodes(), forest)
    }

    /** The points flown on the way from the root to the current head. */
    ghost function WayToHead(): seq<XYZCoord>
      requires WellFormed() && currentHead in Nodes()
      reads this`forest, this`currentHead, Nodes()
    {
      RootAbove(forest, currentHead);
      Way(View(), root, currentHead)
    }

    ghost predicate WellFormed()
      reads this`forest, Nodes()
    {
      && forest.root == root
      && Consistent(View())
      && Holds(forest)
    }

    constructor (rootPoint: RRTPoint, airspace: Environment, dubins: Dubins)
      requires dubins.Sane()
      ensures Valid() && fresh(Nodes())
      ensures this.airspace == airspace && this.dubins == dubins
      ensures currentHead == root && treeSize == 1 && Nodes() == {root} && root.point == rootPoint
      ensures root.cost == 0.0
    {
      var newNode := new RRTNode(rootPoint, 0.0, 0.0, []);
      this.airspace, this.dubins, treeSize := airspace, dubins, 1;
      root, currentHead := newNode, newNode;
      forest := Forest(newNode, map[newNode := []], map[], map[newNode := 0]);
      new;
      LeafCount(forest, root);
    }

    /** Hangs `current` under `newParent`, by a new edge, and brings the costs below it up to
        date. Below itself it would close a cycle. */
    method RewireEdge(current: RRTNode, previousParent: RRTNode, newParent: RRTNode,
                      path: seq<XYZCoord>, pathCost: real)
      requires WellFormed() && current in forest.parent && forest.parent[current] == previousParent
      requires newParent in Nodes() && previousParent in Nodes()
      requires Rooted(forest) && !Above(forest, current, newParent) && pathCost >= 0.0
      modifies this`forest, Nodes()
      ensures WellFormed() && current in old(forest.parent)
      ensures forest == Reparented(old(forest), current, newParent)
      ensures Nodes() == old(Nodes())
      ensures Edges(Nodes()) == old(Edges(Nodes()))[current := Edge(pathCost, path)]
      ensures root.cost == old(root.cost)
    {
      hide Rooted, Above, Complete, Consistent, Reparented, Hung;
      ghost var was, edge := View(), Edge(pathCost, path);
      ConsistentParts(was);
      HungShape(was, current, newParent, edge);
      MoveSubtree(current, previousParent, newParent, path, pathCost, was);
      forest := Reparented(was.forest, current, newParent);
      Resum(current, newParent, was, edge);
    }

    // ----- one RRT* pass

    ghost predicate InReach(sample: RRTNode, n: RRTNode, rewireRadiusSquared: real) {
      DistanceToSquared(n.point.coord, sample.point.coord) <= rewireRadiusSquared
    }

    ghost function RouteTo(start: Snapshot<RRTNode>, sample: RRTNode, n: RRTNode): Option<Edge>
      requires sample in start.cost && n in start.cost
    {
      BestRoute(dubins, airspace, sample.point, n.point,
                dubins.allOptions(sample.point, n.point, true), start.cost[n] - start.cost[sample])
    }

    ghost function BetterRoutes(start: Snapshot<RRTNode>, sample: RRTNode, rewireRadiusSquared: real)
      : map<RRTNode, Edge>
      requires sample in start.cost
    {
      map n | n in start.cost && InReach(sample, n, rewireRadiusSquared) && RouteTo(start, sample, n).Some?
           :: RouteTo(start, sample, n).value
    }

    /** The pass about to be made: every node within reach that a route through the sample would
        make cheaper, with the route the scan would take. */
    ghost function PassFrom(start: Snapshot<RRTNode>, head: RRTNode, sample: RRTNode, rewireRadiusSquared: real)
      : Pass<RRTNode>
      requires sample in start.cost
    {
      Pass(start, head, sample, BetterRoutes(start, sample, rewireRadiusSquared))
    }

    /** `pass` offers every node within reach the route the scan would take, and no other node any. */
    ghost predicate Governs(pass: Pass<RRTNode>, rewireRadiusSquared: real) {
      && dubins.Sane()
      && pass.Sound()
      && forall n | n in pass.start.cost :: OffersRoute(pass, rewireRadiusSquared, n)
    }

    ghost predicate OffersRoute(pass: Pass<RRTNode>, rewireRadiusSquared: real, n: RRTNode)
      requires n in pass.start.cost
    {
      && pass.sample in pass.start.cost
      && (n in pass.better <==>
            InReach(pass.sample, n, rewireRadiusSquared) && RouteTo(pass.start, pass.sample, n).Some?)
      && (n in pass.better ==> pass.better[n] == RouteTo(pass.start, pass.sample, n).value)
    }

    lemma RoutesImprove(start: Snapshot<RRTNode>, sample: RRTNode, rewireRadiusSquared: real, n: RRTNode)
      requires dubins.Sane() && sample in start.cost && n in BetterRoutes(start, sample, rewireRadiusSquared)
      ensures var edge := BetterRoutes(start, sample, rewireRadiusSquared)[n];
              0.0 <= edge.length < start.cost[n] - start.cost[sample] &&
              Flyable(dubins, airspace, sample.point, n.point, edge)
    {
      BestRouteFits(dubins, airspace, sample.point, n.point,
                    dubins.allOptions(sample.point, n.point, true), start.cost[n] - start.cost[sample]);
    }

    lemma PassIsSound(start: Snapshot<RRTNode>, head: RRTNode, sample: RRTNode, rewireRadiusSquared: real)
      requires dubins.Sane() && Consistent(start) && head in start.cost && sample in start.cost && head != sample
      requires Above(start.forest, head, sample)
      ensures Governs(PassFrom(start, head, sample, rewireRadiusSquared), rewireRadiusSquared)
    {
      hide BestRoute, Rooted, CostLink;
      ConsistentParts(start);
      var pass := PassFrom(start, head, sample, rewireRadiusSquared);
      forall n | n in pass.better
        ensures pass.Improves(n)
      {
        RoutesImprove(start, sample, rewireRadiusSquared, n);
      }
      forall n | n in start.cost
        ensures OffersRoute(pass, rewireRadiusSquared, n)
      {
      }
    }

    /** How the scan of `child`'s options relates to the pass. */
    lemma ScanFacts(pass: Pass<RRTNode>, rewireRadiusSquared: real, s: Snapshot<RRTNode>, moved: set<RRTNode>,
                    child: RRTNode)
      requires Governs(pass, rewireRadiusSquared) && pass.Reached(s, moved)
      requires child in pass.start.forest.parent && pass.Examined(child) && child !in moved
      requires InReach(pass.sample, child, rewireRadiusSquared)
      ensures Complete(s) && child in s.cost && pass.sample in s.cost
      ensures var best := BestRoute(dubins, airspace, pass.sample.point, child.point,
                                    dubins.allOptions(pass.sample.point, child.point, true),
                                    s.cost[child] - s.cost[pass.sample]);
              (child in pass.better <==> best.Some?) && (best.Some? ==> pass.better[child] == best.value)
      ensures dubins.SortedWhenAsked(dubins.allOptions(pass.sample.point, child.point, true))
    {
      hide BestRoute, Rooted, Consistent, pass.Reached, pass.Examined, pass.Sound;
      pass.ReadyToMove(s, moved, child);
      assert OffersRoute(pass, rewireRadiusSquared, child);
    }

    lemma OutOfReach(pass: Pass<RRTNode>, rewireRadiusSquared: real, child: RRTNode)
      requires pass.Sound() && Governs(pass, rewireRadiusSquared) && child in pass.start.forest.kids
      requires !InReach(pass.sample, child, rewireRadiusSquared)
      ensures child !in pass.better
    {
      assert OffersRoute(pass, rewireRadiusSquared, child);
    }

    /** The tree is partway through `pass`, with exactly `moved` done. */
    ghost predicate Partway(pass: Pass<RRTNode>, rewireRadiusSquared: real, moved: set<RRTNode>)
      reads this`forest, Nodes()
    {
      && dubins.Sane() && pass.Sound() && Governs(pass, rewireRadiusSquared) && rewireRadiusSquared >= 0.0
      && WellFormed() && pass.Reached(View(), moved)
      && Nodes() == pass.start.forest.kids.Keys && pass.sample in Nodes()
    }

    lemma ListInHeap(n: RRTNode)
      requires WellFormed() && n in Nodes()
      ensures View().forest == forest && n.reachable == forest.kids[n]
    {
    }

    /** Rewiring an examined child along its better route moves it, as the pass prescribes. */
    method TakeRoute(current: RRTNode, child: RRTNode, sample: RRTNode, path: seq<XYZCoord>, length: real,
                     ghost pass: Pass<RRTNode>, ghost rewireRadiusSquared: real, ghost moved: set<RRTNode>)
      requires Partway(pass, rewireRadiusSquared, moved) && pass.sample == sample
      requires child in pass.start.forest.parent && pass.start.forest.parent[child] == current
      requires pass.Examined(child) && child !in moved
      requires child in pass.better && pass.better[child] == Edge(length, path)
      modifies this`forest, Nodes()
      ensures Nodes() == old(Nodes())
      ensures Partway(pass, rewireRadiusSquared, moved + {child})
      ensures child.cost == sample.cost + length && sample.reachable == old(sample.reachable) + [child]
    {
      hide Governs;
      ghost var s := View();
      pass.ReadyToMove(s, moved, child);
      pass.StillNotAboveSample(s, moved, child);
      ListInHeap(sample);
      RewireEdge(child, current, sample, path, length);
      pass.MoveOne(s, moved, child, View());
      ListInHeap(sample);
    }

    /** The scan facts, read off the heap. */
    lemma ScanHere(pass: Pass<RRTNode>, rewireRadiusSquared: real, moved: set<RRTNode>, child: RRTNode)
      requires Partway(pass, rewireRadiusSquared, moved)
      requires child in pass.start.forest.parent && pass.Examined(child) && child !in moved
      requires InReach(pass.sample, child, rewireRadiusSquared)
      ensures child in Nodes() && pass.sample in Nodes() && dubins.Sane()
      ensures var best := BestRoute(dubins, airspace, pass.sample.point, child.point,
                                    dubins.allOptions(pass.sample.point, child.point, true),
                                    child.cost - pass.sample.cost);
              (child in pass.better <==> best.Some?) && (best.Some? ==> pass.better[child] == best.value)
      ensures dubins.SortedWhenAsked(dubins.allOptions(pass.sample.point, child.point, true))
    {
      hide BestRoute, Rooted, Consistent, Governs, pass.Reached, pass.Examined, pass.Sound, InReach;
      ScanFacts(pass, rewireRadiusSquared, View(), moved, child);
    }

    /** The scan over one child's options: at most one of them is taken, because the options are
        sorted and the cost is read again each time. */
    method RerouteChild(current: RRTNode, child: RRTNode, sample: RRTNode, ghost rewireRadiusSquared: real,
                        ghost pass: Pass<RRTNode>, ghost moved: set<RRTNode>)
      requires Partway(pass, rewireRadiusSquared, moved) && pass.sample == sample
      requires child in pass.start.forest.parent && pass.start.forest.parent[child] == current
      requires pass.Examined(child) && child !in moved && InReach(sample, child, rewireRadiusSquared)
      modifies this`forest, Nodes()
      ensures Nodes() == old(Nodes())
      ensures Partway(pass, rewireRadiusSquared, if child in pass.better then moved + {child} else moved)
      ensures sample.reachable == old(sample.reachable) + (if child in pass.better then [child] else [])
    {
      hide BestRoute, Partway, InReach, DistanceToSquared, Environment.PathInBounds;
      hide pass.Sound, pass.Examined;
      var options := dubins.allOptions(sample.point, child.point, true);
      ScanHere(pass, rewireRadiusSquared, moved, child);
      ghost var budget := child.cost - sample.cost;
      ghost var best := BestRoute(dubins, airspace, sample.point, child.point, options, budget);
      ghost var rerouted := false;
      var i := 0;
      while i < |options|
        invariant 0 <= i <= |options|
        invariant Nodes() == old(Nodes())
        invariant Partway(pass, rewireRadiusSquared, if rerouted then moved + {child} else moved)
        invariant sample.reachable == old(sample.reachable) + (if rerouted then [child] else [])
        invariant rerouted ==>
          child in pass.better && i > 0 && options[i - 1].length.Finite? &&
          child.cost == sample.cost + options[i - 1].length.value
        invariant !rerouted ==>
          child.cost - sample.cost == budget &&
          BestRoute(dubins, airspace, sample.point, child.point, options[i..], budget) == best
      {
        BestRouteStep(dubins, airspace, sample.point, child.point, options, i, budget);
        if !options[i].length.Finite? {
          break;
        }
        var newCost := sample.cost + options[i].length.value;
        var cost := child.cost;
        if newCost >= cost {
          break;
        }
        assert !rerouted;
        var path := dubins.generatePoints(sample.point, child.point, options[i].dubinsPath, options[i].hasStraight);
        var valid := airspace.IsPathInBounds(path);
        if valid {
          TakeRoute(current, child, sample, path, options[i].length.value, pass, rewireRadiusSquared, moved);
          rerouted := true;
        }
        i := i + 1;
      }
      if i == |options| {
        BestRouteEnd(dubins, airspace, sample.point, child.point, options, budget);
      }
    }

    /** Before any of its children is moved, a node's list in the heap is the original one. */
    lemma ListUntouched(pass: Pass<RRTNode>, rewireRadiusSquared: real, moved: set<RRTNode>, n: RRTNode)
      requires Partway(pass, rewireRadiusSquared, moved)
      requires n in pass.start.forest.kids && pass.Visited(n) && moved !! pass.Share(n)
      ensures n in Nodes() && n.reachable == pass.start.forest.kids[n] && moved <= pass.Selected()
    {
      hide Rooted, Above, Consistent, BestRoute, Governs, WellFormed;
      hide pass.Reached, pass.Visited, pass.Share, pass.Selected;
      pass.KidsUntouched(View(), moved, n);
      ListInHeap(n);
    }

    /** After all of them were looked at, it holds those that stay. */
    lemma ListLeft(pass: Pass<RRTNode>, rewireRadiusSquared: real, moved: set<RRTNode>, n: RRTNode, done: seq<RRTNode>)
      requires pass.Sound() && n in pass.start.forest.kids && pass.Visited(n) && moved !! pass.Share(n)
      requires pass.sample !in pass.start.forest.kids[n]
      requires done <= Without(pass.start.forest.kids[n], pass.better.Keys)
      requires Partway(pass, rewireRadiusSquared, moved + pass.Taken(pass.start.forest.kids[n]) + pass.Shares(done))
      ensures n in Nodes() && n.reachable == Without(pass.start.forest.kids[n], pass.better.Keys)
    {
      hide Rooted, Above, Consistent, BestRoute, Governs, WellFormed;
      hide pass.Reached, pass.Visited, pass.Share, pass.Shares;
      pass.WalkOn(View(), moved, n, done);
      ListInHeap(n);
    }

    lemma PartwayParts(pass: Pass<RRTNode>, rewireRadiusSquared: real, moved: set<RRTNode>)
      requires Partway(pass, rewireRadiusSquared, moved)
      ensures pass.Sound() && Governs(pass, rewireRadiusSquared) && rewireRadiusSquared >= 0.0
      ensures Nodes() == pass.start.forest.kids.Keys
    {
    }

    /** The first loop of a visit: the children that come before the sample, one after the other.
        Reports whether the sample was met, which ends the visit. */
    method RewireChildren(current: RRTNode, sample: RRTNode, rewireRadiusSquared: real,
                          ghost pass: Pass<RRTNode>, ghost moved: set<RRTNode>)
      returns (metSample: bool)
      requires Partway(pass, rewireRadiusSquared, moved) && pass.sample == sample
      requires current in pass.start.forest.kids && pass.Visited(current) && moved !! pass.Share(current)
      modifies this`forest, Nodes()
      ensures Nodes() == old(Nodes())
      ensures metSample <==> sample in pass.start.forest.kids[current]
      ensures pass.Sound()
      ensures metSample ==>
                Partway(pass, rewireRadiusSquared, moved + pass.Share(current)) &&
                sample.reachable == old(sample.reachable) + pass.Order(current)
      ensures !metSample ==>
                Partway(pass, rewireRadiusSquared, moved + pass.Taken(pass.start.forest.kids[current])) &&
                sample.reachable == old(sample.reachable) + pass.InTurn(pass.start.forest.kids[current])
    {
      hide Rooted, Above, Consistent, BestRoute, Governs, pass.Reached, pass.Sound, pass.Visited, pass.Share;
      hide pass.Taken, pass.Examined, pass.Selected, WellFormed, Partway, pass.InTurn, pass.Order;
      PartwayParts(pass, rewireRadiusSquared, moved);
      ListUntouched(pass, rewireRadiusSquared, moved, current);
      var children := current.reachable;
      pass.NoneTaken(moved);
      assert children[..0] == [];
      var i := 0;
      while i < |children|
        invariant 0 <= i <= |children| && sample !in children[..i]
        invariant Nodes() == old(Nodes())
        invariant Partway(pass, rewireRadiusSquared, moved + pass.Taken(children[..i]))
        invariant sample.reachable == old(sample.reachable) + pass.InTurn(children[..i])
      {
        var child := children[i];
        pass.NextChild(moved, current, i);
        if DistanceToSquared(child.point.coord, sample.point.coord) > rewireRadiusSquared {
          OutOfReach(pass, rewireRadiusSquared, child);
          i := i + 1;
          continue;
        }
        if child == sample {
          pass.ShareAtParent(current);
          pass.OrderParts(current);
          return true;
        }
        RerouteChild(current, child, sample, rewireRadiusSquared, pass, moved + pass.Taken(children[..i]));
        assert child in pass.better ==>
          moved + pass.Taken(children[..i]) + {child} == moved + pass.Taken(children[..i + 1]);
        i := i + 1;
      }
      assert children[..i] == children;
      return false;
    }

    lemma OneMoreShare<N>(base: set<N>, shares: set<N>, share: set<N>)
      ensures base + shares + share == base + (shares + share)
    {
    }

    lemma OneMoreRun<N>(base: seq<N>, runs: seq<N>, run: seq<N>)
      ensures base + runs + run == base + (runs + run)
    {
    }

    /** One visit of the walk: first the children of `current`, then, unless the sample was among
        them, the subtrees that stayed. */
    method RRTStarRecursive(current: RRTNode, sample: RRTNode, rewireRadiusSquared: real,
                            ghost pass: Pass<RRTNode>, ghost moved: set<RRTNode>)
      requires Partway(pass, rewireRadiusSquared, moved) && pass.sample == sample
      requires current in pass.start.forest.kids && pass.Visited(current) && moved !! pass.Share(current)
      modifies this`forest, Nodes()
      ensures Nodes() == old(Nodes())
      ensures pass.Sound() && Partway(pass, rewireRadiusSquared, moved + pass.Share(current))
      ensures sample.reachable == old(sample.reachable) + pass.Order(current)
      decreases |pass.start.forest.kids| - pass.start.forest.depth[current], 1
    {
      hide Rooted, Above, Consistent, BestRoute, Governs, WellFormed, pass.Reached, pass.Sound;
      hide pass.Visited, pass.Share, pass.Shares, pass.Taken, pass.Selected, Partway, Without;
      hide pass.Order, pass.Orders, pass.InTurn;
      PartwayParts(pass, rewireRadiusSquared, moved);
      pass.OrderParts(current);
      var metSample := RewireChildren(current, sample, rewireRadiusSquared, pass, moved);
      if metSample {
        return;
      }
      ghost var rest := Without(pass.start.forest.kids[current], pass.better.Keys);
      VisitStaying(current, sample, rewireRadiusSquared, pass, moved, rest);
      pass.ShareTotal(current);
      OneMoreShare(moved, pass.Taken(pass.start.forest.kids[current]), pass.Shares(rest));
      OneMoreRun(old(sample.reachable), pass.InTurn(pass.start.forest.kids[current]), pass.Orders(current, rest));
    }

    /** The second loop of a visit: the subtrees of the children that stayed. */
    method VisitStaying(current: RRTNode, sample: RRTNode, rewireRadiusSquared: real,
                        ghost pass: Pass<RRTNode>, ghost moved: set<RRTNode>, ghost rest: seq<RRTNode>)
      requires pass.Sound() && pass.sample == sample && sample in Nodes()
      requires current in pass.start.forest.kids && pass.Visited(current) && moved !! pass.Share(current)
      requires sample !in pass.start.forest.kids[current]
      requires rest == Without(pass.start.forest.kids[current], pass.better.Keys)
      requires forall c | c in rest :: c in pass.start.forest.kids[current]
      requires Partway(pass, rewireRadiusSquared, moved + pass.Taken(pass.start.forest.kids[current]))
      modifies this`forest, Nodes()
      ensures Nodes() == old(Nodes())
      ensures Partway(pass, rewireRadiusSquared,
                      moved + pass.Taken(pass.start.forest.kids[current]) + pass.Shares(rest))
      ensures sample.reachable == old(sample.reachable) + pass.Orders(current, rest)
      decreases |pass.start.forest.kids| - pass.start.forest.depth[current], 0
    {
      hide Rooted, Above, Consistent, BestRoute, Governs, WellFormed, pass.Reached, pass.Sound;
      hide pass.Visited, pass.Share, pass.Shares, pass.Taken, pass.Selected, Partway, Without, pass.Order, pass.Orders;
      ghost var base, had := moved + pass.Taken(pass.start.forest.kids[current]), sample.reachable;
      ghost var sofar := base;
      pass.NoShares(base, rest);
      pass.NoOrders(current, rest);
      ListLeft(pass, rewireRadiusSquared, moved, current, rest[..0]);
      var i := 0;
      while i < |current.reachable|
        invariant 0 <= i <= |current.reachable| && current.reachable == rest
        invariant Nodes() == old(Nodes())
        invariant sofar == base + pass.Shares(rest[..i])
        invariant sample.reachable == had + pass.Orders(current, rest[..i])
        invariant Partway(pass, rewireRadiusSquared, sofar)
      {
        var child := current.reachable[i];
        pass.NextShareFresh(moved, current, rest, i);
        pass.VisitedChild(current, child);
        pass.NextOrder(current, rest, i);
        pass.ChildBelow(current, child);
        RRTStarRecursive(child, sample, rewireRadiusSquared, pass, sofar);
        OneMoreShare(base, pass.Shares(rest[..i]), pass.Share(child));
        OneMoreRun(had, pass.Orders(current, rest[..i]), pass.Order(child));
        sofar := sofar + pass.Share(child);
        ListLeft(pass, rewireRadiusSquared, moved, current, rest[..i + 1]);
        i := i + 1;
      }
      assert rest[..i] == rest;
    }

    // ----- what every operation keeps

    /** Each edge of `s` is a curve between its two nodes that passed the path check. */
    ghost predicate AllFlyable(s: Snapshot<RRTNode>)
      requires Complete(s)
    {
      forall n | n in s.forest.parent :: Flyable(dubins, airspace, s.forest.parent[n].point, n.point, s.edge[n])
    }

    ghost predicate Valid()
      reads this, Nodes()
      ensures Valid() ==> WellFormed() && currentHead in Nodes()
    {
      && WellFormed()
      && dubins.Sane()
      && currentHead in Nodes()
      && treeSize == |Below(forest, currentHead)|
      && AllFlyable(View())
    }

    lemma EdgeJoins(p: RRTPoint, q: RRTPoint, edge: Edge)
      requires dubins.Sane() && Flyable(dubins, airspace, p, q, edge)
      ensures |edge.path| > 0 && Ground(edge.path[0]) == Ground(p.coord)
      ensures Ground(edge.path[|edge.path| - 1]) == Ground(q.coord)
    {
      var o: RRTOption :| dubins.Offers(p, q, o) && o.length == Finite(edge.length) &&
                          edge.path == dubins.generatePoints(p, q, o.dubinsPath, o.hasStraight);
      assert dubins.Joins(p, q, o);
    }

    /** Flown from `a`, the way to `n` ends over `n`. */
    lemma {:induction false} WayLands(s: Snapshot<RRTNode>, a: RRTNode, n: RRTNode)
      requires Complete(s) && AllFlyable(s) && dubins.Sane() && n in s.forest.kids && Above(s.forest, a, n)
      ensures Over(a.point.coord, Way(s, a, n)) == Ground(n.point.coord)
      decreases s.forest.depth[n]
    {
      hide Way, Flyable, Rooted, Dubins.Sane;
      WayStep(s, a, n);
      if n != a {
        var p := s.forest.parent[n];
        EdgeJoins(p.point, n.point, s.edge[n]);
        WayLands(s, a, p);
      }
    }

    lemma RerouteIsFlyable(pass: Pass<RRTNode>, rewireRadiusSquared: real, n: RRTNode)
      requires Governs(pass, rewireRadiusSquared) && n in pass.better && n in pass.start.cost
      ensures Flyable(dubins, airspace, pass.sample.point, n.point, pass.better[n])
    {
      hide pass.Sound;
      assert OffersRoute(pass, rewireRadiusSquared, n);
      BestRouteFits(dubins, airspace, pass.sample.point, n.point,
                    dubins.allOptions(pass.sample.point, n.point, true),
                    pass.start.cost[n] - pass.start.cost[pass.sample]);
    }

    lemma StillFlyable(pass: Pass<RRTNode>, rewireRadiusSquared: real, s: Snapshot<RRTNode>, moved: set<RRTNode>)
      requires Governs(pass, rewireRadiusSquared) && AllFlyable(pass.start) && pass.Reached(s, moved)
      ensures AllFlyable(s)
    {
      hide Flyable, Rooted, CostLink, pass.LinksMoved, pass.ListsMoved, OffersRoute;
      forall n | n in s.forest.parent
        ensures n in s.edge && Flyable(dubins, airspace, s.forest.parent[n].point, n.point, s.edge[n])
      {
        pass.LinkAfter(s, moved, n);
        if n in moved {
          RerouteIsFlyable(pass, rewireRadiusSquared, n);
        }
      }
    }

    /** No option from `sample` to `n` that stays in bounds would make `n` cheaper, unless it is listed
        behind one whose length is not a number. */
    ghost predicate NoShortcut(s: Snapshot<RRTNode>, sample: RRTNode, n: RRTNode)
      requires sample in s.cost && n in s.cost
    {
      var options := dubins.allOptions(sample.point, n.point, true);
      forall k: nat | k < |options| && Usable(sample, n, options, k) ::
        s.cost[n] <= s.cost[sample] + options[k].length.value
    }

    ghost predicate Usable(sample: RRTNode, n: RRTNode, options: seq<RRTOption>, k: nat)
      requires k < |options|
      ensures Usable(sample, n, options, k) ==> options[k].length.Finite?
    {
      && options[k].length.Finite? && (forall i | 0 <= i < k :: !options[i].length.NotANumber?)
      && airspace.PathInBounds(
           dubins.generatePoints(sample.point, n.point, options[k].dubinsPath, options[k].hasStraight))
    }

    /** What a pass is for: none of the nodes it examined within reach could still be made cheaper
        through the sample. */
    lemma NothingLeftToGain(pass: Pass<RRTNode>, rewireRadiusSquared: real, s: Snapshot<RRTNode>, n: RRTNode)
      requires Governs(pass, rewireRadiusSquared) && pass.Finished(s)
      requires n in pass.start.forest.parent && pass.Examined(n) && InReach(pass.sample, n, rewireRadiusSquared)
      ensures pass.sample in s.cost && n in s.cost && NoShortcut(s, pass.sample, n)
    {
      hide Rooted, Above, pass.Examined, pass.Sound, pass.ListsMoved, InReach;
      CostWhenDone(pass, s, n);
      assert OffersRoute(pass, rewireRadiusSquared, n);
      var options := dubins.allOptions(pass.sample.point, n.point, true);
      forall k: nat | k < |options| && Usable(pass.sample, n, options, k)
        ensures s.cost[n] <= s.cost[pass.sample] + options[k].length.value
      {
        BestRouteIsShortest(dubins, airspace, pass.sample.point, n.point, options,
                            pass.start.cost[n] - pass.start.cost[pass.sample], k);
      }
    }

    /** An examined node ends up with the cost of its better route, if it had one. */
    lemma CostWhenDone(pass: Pass<RRTNode>, s: Snapshot<RRTNode>, n: RRTNode)
      requires pass.Sound() && pass.Reached(s, pass.Selected())
      requires n in pass.start.forest.parent && pass.Examined(n)
      ensures n in s.cost && pass.sample in s.cost && n in pass.start.cost && pass.sample in pass.start.cost
      ensures s.cost[pass.sample] == pass.start.cost[pass.sample]
      ensures s.cost[n] == if n in pass.better then s.cost[pass.sample] + pass.better[n].length
                           else pass.start.cost[n]
    {
      hide Rooted, Above, pass.ListsMoved, pass.Visited;
      pass.SampleSettled(s, pass.Selected());
      if n in pass.better {
        pass.ReachedKeys(s, pass.Selected());
        assert CostLink(s, n);
        pass.LinkAfter(s, pass.Selected(), n);
      } else {
        pass.ExaminedCost(s, pass.Selected(), n);
      }
    }

    lemma GovernsSound(pass: Pass<RRTNode>, rewireRadiusSquared: real)
      requires Governs(pass, rewireRadiusSquared)
      ensures pass.Sound() && dubins.Sane()
    {
    }

    /** `after` is the finished pass through `sample` from `s`, and none of the nodes that it examined within
        reach could gain from `sample` any more. */
    ghost predicate Optimized(s: Snapshot<RRTNode>, head: RRTNode, sample: RRTNode, rewireRadiusSquared: real,
                              after: Snapshot<RRTNode>)
    {
      && sample in s.cost
      && var pass := PassFrom(s, head, sample, rewireRadiusSquared);
         pass.Sound() && pass.Finished(after) &&
         forall n | n in s.forest.parent && pass.Examined(n) && InReach(sample, n, rewireRadiusSquared) ::
           sample in after.cost && n in after.cost && NoShortcut(after, sample, n)
    }

    /** Rewires through `sample` whatever a pass from the current head selects. */
    method RRTStar(sample: RRTNode, rewireRadius: real)
      requires Valid() && sample in Nodes() && sample != currentHead && Above(forest, currentHead, sample)
      modifies this`forest, Nodes()
      ensures Valid() && Nodes() == old(Nodes()) && WayToHead() == old(WayToHead())
      ensures Optimized(old(View()), currentHead, sample, Squared(rewireRadius), View())
      ensures Below(forest, currentHead) == old(Below(forest, currentHead))
      ensures sample.cost == old(sample.cost) && currentHead.cost == old(currentHead.cost)
      ensures root.cost == old(root.cost)
      ensures forall n | n in Nodes() :: n.cost <= old(n.cost)
    {
      hide Rooted, Above, Consistent, AllFlyable, BestRoute, Governs, BetterRoutes, Without, NoShortcut, InReach, Way;
      ghost var radius := Squared(rewireRadius);
      ConsistentParts(View());
      ghost var pass := PassFrom(View(), currentHead, sample, radius);
      PassIsSound(View(), currentHead, sample, radius);
      GovernsSound(pass, radius);
      hide pass.Sound, pass.Reached, pass.Visited, pass.Share;
      pass.ReachedAtStart();
      pass.HeadVisited();
      ListInHeap(sample);
      RRTStarRecursive(currentHead, sample, rewireRadius * rewireRadius, pass, {});
      ListInHeap(sample);
      WholePass(pass, radius, View());
    }

    /** Everything a finished pass guarantees. */
    lemma WholePass(pass: Pass<RRTNode>, rewireRadiusSquared: real, s: Snapshot<RRTNode>)
      requires Governs(pass, rewireRadiusSquared) && AllFlyable(pass.start)
      requires pass.Visited(pass.head) && pass.Reached(s, {} + pass.Share(pass.head))
      requires s.forest.kids[pass.sample] == pass.start.forest.kids[pass.sample] + pass.Order(pass.head)
      ensures pass.Finished(s)
      ensures AllFlyable(s)
      ensures Below(s.forest, pass.head) == Below(pass.start.forest, pass.head)
      ensures s.cost[pass.sample] == pass.start.cost[pass.sample]
      ensures s.cost[pass.head] == pass.start.cost[pass.head]
      ensures s.cost.Keys == pass.start.cost.Keys
      ensures s.forest.root in s.cost && s.cost[s.forest.root] == pass.start.cost[s.forest.root]
      ensures Above(pass.start.forest, s.forest.root, pass.head) && Above(s.forest, s.forest.root, pass.head)
      ensures Way(s, s.forest.root, pass.head) == Way(pass.start, s.forest.root, pass.head)
      ensures forall n | n in s.cost :: s.cost[n] <= pass.start.cost[n]
      ensures forall n | n in pass.start.forest.parent && pass.Examined(n) &&
                         InReach(pass.sample, n, rewireRadiusSquared) ::
                pass.sample in s.cost && n in s.cost && NoShortcut(s, pass.sample, n)
    {
      hide InReach, NoShortcut;
      hide Rooted, Above, AllFlyable, CostLink, pass.LinksMoved, pass.ListsMoved, pass.Visited, pass.Share, OffersRoute;
      ConsistentParts(s);
      pass.WholeShare();
      assert {} + pass.Share(pass.head) == pass.Selected();
      StillFlyable(pass, rewireRadiusSquared, s, pass.Selected());
      pass.HeadSetKept(s, pass.Selected());
      pass.SampleSettled(s, pass.Selected());
      pass.VisitedCost(s, pass.Selected(), pass.head);
      RootAbove(pass.start.forest, pass.head);
      pass.HeadWayKept(s, pass.Selected(), s.forest.root);
      forall n | n in s.cost
        ensures s.cost[n] <= pass.start.cost[n]
      {
        pass.CostAfter(s, pass.Selected(), n);
      }
      forall n | n in pass.start.forest.parent && pass.Examined(n) && InReach(pass.sample, n, rewireRadiusSquared)
        ensures n in s.cost && NoShortcut(s, pass.sample, n)
      {
        NothingLeftToGain(pass, rewireRadiusSquared, s, n);
      }
    }

    // ----- growing the tree

    /** Builds the node at the end of a curve from `anchor`, unless the curve leaves the airspace. */
    method GenerateNode(anchor: RRTNode, newPoint: RRTPoint, option: RRTOption) returns (newNode: RRTNode?)
      requires dubins.Sane() && option.length.Finite?
      ensures var path := dubins.generatePoints(anchor.point, newPoint, option.dubinsPath, option.hasStraight);
              if airspace.PathInBounds(path) then
                newNode != null && fresh(newNode) && newNode.point == newPoint && newNode.reachable == [] &&
                newNode.cost == anchor.cost + option.length.value &&
                newNode.pathLength == option.length.value && newNode.path == path
              else newNode == null
      ensures newNode != null && dubins.Offers(anchor.point, newPoint, option) ==>
                Flyable(dubins, airspace, anchor.point, newPoint, Edge(newNode.pathLength, newNode.path))
    {
      var path := dubins.generatePoints(anchor.point, newPoint, option.dubinsPath, option.hasStraight);
      var valid := airspace.IsPathInBounds(path);
      if !valid {
        return null;
      }
      newNode := new RRTNode(newPoint, anchor.cost + option.length.value, option.length.value, path);
    }

    /** `newNode` can be hung under `anchor` as it is. */
    ghost predicate Fits(anchor: RRTNode, newNode: RRTNode)
      reads this, Nodes(), newNode
    {
      && WellFormed() && anchor in Nodes() && Above(forest, currentHead, anchor)
      && newNode !in Nodes() && newNode.reachable == []
      && newNode.pathLength >= 0.0 && newNode.cost == anchor.cost + newNode.pathLength
      && Flyable(dubins, airspace, anchor.point, newNode.point, Edge(newNode.pathLength, newNode.path))
    }

    /** All that hanging up a fitting leaf keeps. */
    lemma LeafKeeps(s: Snapshot<RRTNode>, anchor: RRTNode, leaf: RRTNode, edge: Edge)
      requires Consistent(s) && AllFlyable(s) && s.forest.root == root && currentHead in s.forest.kids
      requires anchor in s.forest.kids && Above(s.forest, currentHead, anchor)
      requires leaf !in s.forest.kids && edge.length >= 0.0
      requires Flyable(dubins, airspace, anchor.point, leaf.point, edge)
      ensures Consistent(WithLeaf(s, anchor, leaf, edge)) && AllFlyable(WithLeaf(s, anchor, leaf, edge))
      ensures Below(WithLeaf(s, anchor, leaf, edge).forest, currentHead) == Below(s.forest, currentHead) + {leaf}
      ensures |Below(WithLeaf(s, anchor, leaf, edge).forest, currentHead)| == |Below(s.forest, currentHead)| + 1
      ensures WithLeafShape(s, anchor, leaf, edge)
      ensures Above(s.forest, root, currentHead) && Above(WithLeaf(s, anchor, leaf, edge).forest, root, currentHead)
      ensures Way(WithLeaf(s, anchor, leaf, edge), root, currentHead) == Way(s, root, currentHead)
    {
      hide Rooted, Above, Flyable, Grown, WithLeaf, Consistent, Below, Way;
      ConsistentParts(s);
      WithLeafConsistent(s, anchor, leaf, edge);
      ConsistentParts(WithLeaf(s, anchor, leaf, edge));
      GrownCount(s.forest, anchor, leaf, currentHead);
      RootAbove(s.forest, currentHead);
      WithLeafWay(s, anchor, leaf, edge, root, currentHead);
    }

    /** What AddNode promises, once the heap holds the tree with the leaf. */
    lemma LeafHung(was: Snapshot<RRTNode>, anchor: RRTNode, leaf: RRTNode, edge: Edge)
      requires Consistent(was) && AllFlyable(was) && was.forest.root == root && currentHead in was.forest.kids
      requires anchor in was.forest.kids && Above(was.forest, currentHead, anchor)
      requires leaf !in was.forest.kids && edge.length >= 0.0
      requires Flyable(dubins, airspace, anchor.point, leaf.point, edge) && dubins.Sane()
      requires View() == WithLeaf(was, anchor, leaf, edge) && Holds(forest)
      requires treeSize == |Below(was.forest, currentHead)| + 1
      ensures Valid() && Nodes() == was.forest.kids.Keys + {leaf}
      ensures Above(was.forest, root, currentHead) && WayToHead() == Way(was, root, currentHead)
      ensures Rooted(forest) && Below(forest, currentHead) == Below(was.forest, currentHead) + {leaf}
    {
      hide Rooted, Above, Flyable, Grown, WithLeaf, Consistent, Below, Way, AllFlyable, Holds;
      LeafKeeps(was, anchor, leaf, edge);
      ConsistentParts(View());
    }

    /** Hangs `newNode` under `anchor`; refuses when either is missing. */
    method AddNode(anchor: RRTNode?, newNode: RRTNode?) returns (added: bool)
      requires Valid()
      requires anchor != null && newNode != null ==> Fits(anchor, newNode)
      modifies this`forest, this`treeSize, Nodes()`reachable
      ensures Valid() && WayToHead() == old(WayToHead())
      ensures added <==> anchor != null && newNode != null
      ensures !added ==> View() == old(View()) && treeSize == old(treeSize)
      ensures added ==>
                old(Complete(View())) && anchor in old(forest.kids) &&
                View() == WithLeaf(old(View()), anchor, newNode, Edge(newNode.pathLength, newNode.path)) &&
                Nodes() == old(Nodes()) + {newNode} && treeSize == old(treeSize) + 1 &&
                Rooted(forest) && Below(forest, currentHead) == old(Below(forest, currentHead)) + {newNode}
    {
      hide Rooted, Above, Consistent, AllFlyable, Flyable, Grown, WithLeaf, Below, Costs, Edges, Holds, Way;
      if newNode == null || anchor == null {
        return false;
      }
      ghost var was, edge := View(), Edge(newNode.pathLength, newNode.path);
      ConsistentParts(was);
      WithLeafConsistent(was, anchor, newNode, edge);
      AppendChild(anchor, newNode, was);
      treeSize := treeSize + 1;
      forest := Grown(was.forest, anchor, newNode);
      LeafHung(was, anchor, newNode, edge);
      return true;
    }

    /** Grows the tree by a node at `newPoint`, if the curve to it stays in bounds. */
    method AddSample(anchor: RRTNode, newPoint: RRTPoint, option: RRTOption) returns (newNode: RRTNode?)
      requires Valid() && anchor in Nodes() && Above(forest, currentHead, anchor)
      requires dubins.Offers(anchor.point, newPoint, option)
      modifies this`forest, this`treeSize, Nodes()`reachable
      ensures Valid() && WayToHead() == old(WayToHead())
      ensures newNode == null <==> !airspace.PathInBounds(
                dubins.generatePoints(anchor.point, newPoint, option.dubinsPath, option.hasStraight))
      ensures newNode == null ==> View() == old(View()) && treeSize == old(treeSize)
      ensures newNode != null ==>
                newNode.path == dubins.generatePoints(anchor.point, newPoint, option.dubinsPath, option.hasStraight) &&
                newNode.cost == anchor.cost + option.length.value && newNode.reachable == []
      ensures newNode != null ==>
                fresh(newNode) && newNode.point == newPoint && newNode.pathLength == option.length.value &&
                old(Complete(View())) && anchor in old(forest.kids) &&
                View() == WithLeaf(old(View()), anchor, newNode, Edge(newNode.pathLength, newNode.path)) &&
                Nodes() == old(Nodes()) + {newNode} && treeSize == old(treeSize) + 1 &&
                Rooted(forest) && Below(forest, currentHead) == old(Below(forest, currentHead)) + {newNode}
    {
      hide Rooted, Above, Consistent, AllFlyable, Flyable, Grown, WithLeaf, Below;
      var generated := GenerateNode(anchor, newPoint, option);
      var added := AddNode(anchor, generated);
      if added {
        return generated;
      }
      return null;
    }

    /** Makes `goal` the place from which the next goal is searched for. The size counted from now
        on is right exactly if `goal` is a leaf. */
    method SetCurrentHead(goal: RRTNode?)
      requires Valid()
      requires goal != null ==> goal in Nodes()
      modifies this`treeSize, this`currentHead
      ensures WellFormed() && View() == old(View())
      ensures if goal == null then Valid() && currentHead == old(currentHead) && treeSize == old(treeSize)
              else currentHead == goal && treeSize == 1 && (Valid() <==> goal.reachable == [])
    {
      hide Rooted, Above, AllFlyable;
      if goal == null {
        return;
      }
      ConsistentParts(View());
      AloneIfLeaf(forest, goal);
      treeSize := 1;
      currentHead := goal;
    }

    // ----- reading a path off the tree

    /** The nodes on the way from the current head, itself left out, down to `target`. */
    method FindPathToNode(target: RRTNode) returns (nodes: seq<RRTNode>)
      requires WellFormed() && currentHead in Nodes()
      ensures nodes == if target == currentHead then [target, target]
                       else if target in Nodes() && Above(forest, currentHead, target)
                       then Chain(forest, currentHead, target)
                       else []
    {
      hide Rooted, Above, Consistent, Searching, Chain;
      if target == currentHead {
        return [target, target];
      }
      ConsistentParts(View());
      var dfsStack: seq<(RRTNode, nat)> := [(currentHead, 0)];
      var currentPath := [currentHead];
      ghost var seen := {currentHead};
      Start(forest, currentHead, target);
      while dfsStack != []
        invariant |dfsStack| == |currentPath|
        invariant Searching(forest, currentHead, target, dfsStack, currentPath, seen)
        decreases |Nodes() - seen|, |dfsStack|
      {
        var (currentNode, childIdx) := dfsStack[|dfsStack| - 1];
        TopFrame(forest, currentHead, target, dfsStack, currentPath, seen);
        if currentNode == target {
          DescentIsChain(forest, currentPath);
          return currentPath[1..];
        }
        var children := currentNode.reachable;
        if childIdx < |children| {
          var nextChild := children[childIdx];
          Push(forest, currentHead, target, dfsStack, currentPath, seen);
          ghost var pushed := Pushed(dfsStack, nextChild);
          dfsStack := dfsStack[|dfsStack| - 1 := (currentNode, childIdx + 1)];
          dfsStack := dfsStack + [(nextChild, 0)];
          assert dfsStack == pushed;
          currentPath := currentPath + [nextChild];
          FewerLeft(Nodes(), seen, nextChild);
          seen := seen + {nextChild};
        } else {
          Pop(forest, currentHead, target, dfsStack, currentPath, seen);
          dfsStack := dfsStack[..|dfsStack| - 1];
          currentPath := currentPath[..|currentPath| - 1];
        }
      }
      NothingLeft(forest, currentHead, target, seen);
      return [];
    }

    method BuildPathFromNodes(nodes: seq<RRTNode>) returns (path: seq<XYZCoord>)
      requires forall n | n in nodes :: n in Nodes()
      ensures path == Flown(View().edge, nodes)
    {
      path := [];
      for i := 0 to |nodes|
        invariant path == Flown(View().edge, nodes[..i])
      {
        var edgePath := nodes[i].path;
        assert nodes[i] in nodes;
        assert nodes[..i + 1][..i] == nodes[..i];
        if edgePath != [] {
          path := path + edgePath[1..];
        }
      }
      assert nodes[..|nodes|] == nodes;
    }

    /** The points flown from the current head to `node`; none if there is no way. */
    method GetPathSegment(node: RRTNode) returns (path: seq<XYZCoord>)
      requires WellFormed() && currentHead in Nodes()
      ensures Complete(View())
      ensures path == if node in Nodes() && Above(forest, currentHead, node) then Way(View(), currentHead, node)
                      else []
    {
      hide Above, Consistent, Rooted, Chain;
      ConsistentParts(View());
      if node == currentHead {
        EmptyChain(forest, node);
        return [];
      }
      if node in Nodes() && Above(forest, currentHead, node) {
        ChainMembers(View(), currentHead, node);
      }
      var nodes := FindPathToNode(node);
      path := BuildPathFromNodes(nodes);
    }

    // ----- ways to connect a new point

    /** `o` is a usable curve from `n` to `end`. */
    ghost predicate Offered(n: RRTNode, o: RRTOption, end: RRTPoint) {
      o in dubins.allOptions(n.point, end, false) && o.length.Finite?
    }

    /** How often the usable curve `o` is offered from `n` to `end`. */
    ghost function Times(n: RRTNode, o: RRTOption, end: RRTPoint): nat {
      multiset(dubins.allOptions(n.point, end, false))[o]
    }

    /** `options` holds exactly the usable curves from the nodes in `from`, each as often as it is offered. */
    ghost predicate Gathered(options: seq<(RRTNode, RRTOption)>, from: set<RRTNode>, end: RRTPoint) {
      && (forall p | p in options :: p.0 in from && Offered(p.0, p.1, end))
      && (forall n, o | n in from && Offered(n, o, end) :: multiset(options)[(n, o)] == Times(n, o, end))
    }

    method OptionsFrom(node: RRTNode, end: RRTPoint) returns (options: seq<(RRTNode, RRTOption)>)
      ensures Gathered(options, {node}, end)
    {
      options := [];
      var localOptions := dubins.allOptions(node.point, end, false);
      for i := 0 to |localOptions|
        invariant forall p | p in options :: p.0 == node && Offered(node, p.1, end)
        invariant forall o: RRTOption | o.length.Finite? ::
                    multiset(options)[(node, o)] == multiset(localOptions[..i])[o]
      {
        assert localOptions[..i + 1] == localOptions[..i] + [localOptions[i]];
        if localOptions[i].length.Finite? {
          options := options + [(node, localOptions[i])];
        }
      }
      assert localOptions[..|localOptions|] == localOptions;
    }

    lemma GatheredTogether(a: seq<(RRTNode, RRTOption)>, from: set<RRTNode>,
                           b: seq<(RRTNode, RRTOption)>, too: set<RRTNode>, end: RRTPoint)
      requires Gathered(a, from, end) && Gathered(b, too, end) && from !! too
      ensures Gathered(a + b, from + too, end)
    {
      hide Times, Offered;
      forall n, o | n in from + too && Offered(n, o, end)
        ensures multiset(a + b)[(n, o)] == Times(n, o, end)
      {
        assert n !in from ==> (n, o) !in a;
        assert n !in too ==> (n, o) !in b;
      }
    }

    lemma NothingGathered(end: RRTPoint)
      ensures Gathered([], Members<RRTNode>([]), end)
    {
    }

    /** The usable curves from the whole subtree at `node`. */
    method FillOptions(node: RRTNode, end: RRTPoint) returns (options: seq<(RRTNode, RRTOption)>)
      requires WellFormed() && node in Nodes()
      ensures Rooted(forest) && Gathered(options, Below(forest, node), end)
      decreases |forest.kids| - forest.depth[node]
    {
      hide Rooted, Consistent, UnderSet, Below, Gathered;
      ConsistentParts(View());
      options := OptionsFrom(node, end);
      UnderSetSteps(forest, node, 0);
      assert {node} == {node} + UnderSet(forest, node, 0);
      var i := 0;
      while i < |node.reachable|
        invariant 0 <= i <= |node.reachable|
        invariant Gathered(options, {node} + UnderSet(forest, node, i), end)
      {
        UnderSetSteps(forest, node, i);
        NextSubtreeApart(node, i);
        var more := FillOptions(node.reachable[i], end);
        GatheredTogether(options, {node} + UnderSet(forest, node, i),
                         more, Below(forest, node.reachable[i]), end);
        assert {node} + UnderSet(forest, node, i) + Below(forest, node.reachable[i]) ==
               {node} + UnderSet(forest, node, i + 1);
        options := options + more;
        i := i + 1;
      }
      UnderSetSteps(forest, node, i);
    }

    method FillOptionsNodes(nodes: seq<RRTNode>, end: RRTPoint) returns (options: seq<(RRTNode, RRTOption)>)
      requires NoDuplicates(nodes)
      ensures Gathered(options, Members(nodes), end)
    {
      hide Gathered;
      options := [];
      NothingGathered(end);
      for i := 0 to |nodes|
        invariant Gathered(options, Members(nodes[..i]), end)
      {
        assert nodes[i] !in nodes[..i];
        var more := OptionsFrom(nodes[i], end);
        GatheredTogether(options, Members(nodes[..i]), more, {nodes[i]}, end);
        assert Members(nodes[..i + 1]) == Members(nodes[..i]) + {nodes[i]};
        options := options + more;
      }
      assert nodes[..|nodes|] == nodes;
    }

    /** Distance and node, for the whole subtree at `node`, each node once. */
    ghost predicate Measured(byDistance: seq<(real, RRTNode)>, from: set<RRTNode>, sample: RRTPoint) {
      && |byDistance| == |from|
      && (forall p | p in byDistance :: p.1 in from && p.0 == DistanceToSquared(sample.coord, p.1.point.coord))
      && (forall n | n in from :: (DistanceToSquared(sample.coord, n.point.coord), n) in byDistance)
    }

    lemma MeasuredTogether(a: seq<(real, RRTNode)>, from: set<RRTNode>,
                           b: seq<(real, RRTNode)>, too: set<RRTNode>, sample: RRTPoint)
      requires Measured(a, from, sample) && Measured(b, too, sample) && from !! too
      ensures Measured(a + b, from + too, sample)
    {
      assert |from + too| == |from| + |too|;
    }

    lemma OneMeasured(node: RRTNode, sample: RRTPoint)
      ensures Measured([(DistanceToSquared(sample.coord, node.point.coord), node)], {node}, sample)
    {
      hide DistanceToSquared;
    }

    lemma NextSubtreeApart(node: RRTNode, i: nat)
      requires WellFormed() && node in Nodes() && i < |node.reachable|
      ensures {node} + UnderSet(forest, node, i) !! Below(forest, node.reachable[i])
    {
      assert KidLinks(forest, node) && node.reachable[i] in forest.kids[node];
      var c := node.reachable[i];
      assert ParentLink(forest, c);
      if Above(forest, c, node) { AboveDepth(forest, c, node); }
      forall n | n in UnderSet(forest, node, i)
        ensures !Above(forest, c, n)
      {
        UnderFirstStep(forest, node, i, n);
      }
    }

    method GetKClosestNodesRecursive(sample: RRTPoint, node: RRTNode) returns (byDistance: seq<(real, RRTNode)>)
      requires WellFormed() && node in Nodes()
      ensures Rooted(forest) && Measured(byDistance, Below(forest, node), sample)
      decreases |forest.kids| - forest.depth[node]
    {
      hide Rooted, Consistent, UnderSet, Below, Measured, DistanceToSquared;
      ConsistentParts(View());
      byDistance := [(DistanceToSquared(sample.coord, node.point.coord), node)];
      OneMeasured(node, sample);
      UnderSetSteps(forest, node, 0);
      assert {node} == {node} + UnderSet(forest, node, 0);
      var i := 0;
      while i < |node.reachable|
        invariant 0 <= i <= |node.reachable|
        invariant Measured(byDistance, {node} + UnderSet(forest, node, i), sample)
      {
        UnderSetSteps(forest, node, i);
        NextSubtreeApart(node, i);
        var more := GetKClosestNodesRecursive(sample, node.reachable[i]);
        MeasuredTogether(byDistance, {node} + UnderSet(forest, node, i),
                         more, Below(forest, node.reachable[i]), sample);
        assert {node} + UnderSet(forest, node, i) + Below(forest, node.reachable[i]) ==
               {node} + UnderSet(forest, node, i + 1);
        byDistance := byDistance + more;
        i := i + 1;
      }
      UnderSetSteps(forest, node, i);
    }

    /** `some` are `k` of `all`, or all if there are fewer, and none of the others is nearer. */
    ghost predicate Nearest(some: set<RRTNode>, all: set<RRTNode>, sample: RRTPoint, k: nat) {
      && some <= all && |some| == (if k < |all| then k else |all|)
      && forall n, m | n in some && m in all && m !in some ::
           DistanceToSquared(sample.coord, n.point.coord) <= DistanceToSquared(sample.coord, m.point.coord)
    }

    /** The `k` nodes nearest to `sample`, or all of them if there are fewer. */
    method GetKClosestNodes(sample: RRTPoint, k: nat) returns (closest: seq<RRTNode>)
      requires WellFormed() && currentHead in Nodes()
      ensures Rooted(forest) && NoDuplicates(closest)
      ensures Nearest(Members(closest), Below(forest, currentHead), sample, k)
    {
      hide Rooted, Consistent, Below;
      var byDistance := GetKClosestNodesRecursive(sample, currentHead);
      ConsistentParts(View());
      var sorted := SortKeyed(byDistance);
      ghost var from := Below(forest, currentHead);
      assert Measured(sorted, from, sample);
      var stop := if k < |sorted| then k else |sorted|;
      closest := [];
      for i := 0 to stop
        invariant |closest| == i && forall j | 0 <= j < i :: closest[j] == sorted[j].1
      {
        closest := closest + [sorted[i].1];
      }
      EachOnce(sorted, from, sample);
      FirstAreNearest(sorted, from, sample, stop, closest);
      MembersCounted(closest);
    }

    lemma FirstAreNearest(sorted: seq<(real, RRTNode)>, from: set<RRTNode>, sample: RRTPoint, stop: nat,
                          closest: seq<RRTNode>)
      requires Measured(sorted, from, sample) && Ascending(sorted) && stop <= |sorted|
      requires forall i, j | 0 <= i < j < |sorted| :: sorted[i].1 != sorted[j].1
      requires |closest| == stop && forall j | 0 <= j < stop :: closest[j] == sorted[j].1
      ensures Members(closest) <= from && NoDuplicates(closest)
      ensures forall n, m | n in closest && m in from && m !in closest ::
                DistanceToSquared(sample.coord, n.point.coord) <= DistanceToSquared(sample.coord, m.point.coord)
    {
      hide DistanceToSquared;
      forall n | n in closest ensures n in from { assert exists j | 0 <= j < stop :: sorted[j].1 == n; }
      forall n, m | n in closest && m in from && m !in closest
        ensures DistanceToSquared(sample.coord, n.point.coord) <= DistanceToSquared(sample.coord, m.point.coord)
      {
        var i :| 0 <= i < stop && closest[i] == n;
        var j :| 0 <= j < |sorted| && sorted[j] == (DistanceToSquared(sample.coord, m.point.coord), m);
        assert j >= stop;
        assert sorted[i].0 <= sorted[j].0;
      }
    }

    lemma EachOnce(byDistance: seq<(real, RRTNode)>, from: set<RRTNode>, sample: RRTPoint)
      requires Measured(byDistance, from, sample)
      ensures forall i, j | 0 <= i < j < |byDistance| :: byDistance[i].1 != byDistance[j].1
    {
      var nodes := seq(|byDistance|, i requires 0 <= i < |byDistance| => byDistance[i].1);
      forall n | n in from
        ensures n in nodes
      {
        var i :| 0 <= i < |byDistance| && byDistance[i] == (DistanceToSquared(sample.coord, n.point.coord), n);
        assert nodes[i] == n;
      }
      assert Members(nodes) == from;
      MembersAtMost(nodes);
      assert forall i | 0 <= i < |nodes| :: nodes[i] == byDistance[i].1;
    }

    /** Some of the nodes under `node`: each is kept or not by a coin toss. */
    method GetKRandomNodesRecursive(node: RRTNode) returns (nodes: seq<RRTNode>)
      requires WellFormed() && node in Nodes()
      ensures Rooted(forest) && Members(nodes) <= Below(forest, node) && NoDuplicates(nodes)
      decreases |forest.kids| - forest.depth[node]
    {
      hide Rooted, Consistent, UnderSet, Below;
      ConsistentParts(View());
      var keep: bool := *;
      nodes := if keep then [node] else [];
      UnderSetSteps(forest, node, 0);
      var i := 0;
      while i < |node.reachable|
        invariant 0 <= i <= |node.reachable|
        invariant Members(nodes) <= {node} + UnderSet(forest, node, i) && NoDuplicates(nodes)
      {
        UnderSetSteps(forest, node, i);
        NextSubtreeApart(node, i);
        var more := GetKRandomNodesRecursive(node.reachable[i]);
        MembersJoin(nodes, more);
        nodes := nodes + more;
        i := i + 1;
      }
      UnderSetSteps(forest, node, i);
    }

    /** What it costs to reach the new point this way. */
    ghost function Total(p: (RRTNode, RRTOption)): real
      requires p.1.length.Finite?
      reads p.0`cost
    {
      p.1.length.value + p.0.cost
    }

    ghost predicate AllFinite(options: seq<(RRTNode, RRTOption)>) {
      forall p | p in options :: p.1.length.Finite?
    }

    ghost predicate Cheapest(options: seq<(RRTNode, RRTOption)>)
      requires AllFinite(options)
      reads set p | p in options :: p.0
    {
      forall i, j | 0 <= i < j < |options| :: Total(options[i]) <= Total(options[j])
    }

    method SortByTotal(options: seq<(RRTNode, RRTOption)>) returns (sorted: seq<(RRTNode, RRTOption)>)
      requires AllFinite(options)
      ensures AllFinite(sorted) && Cheapest(sorted)
      ensures |sorted| == |options| && multiset(sorted) == multiset(options)
    {
      var keyed: seq<(real, (RRTNode, RRTOption))> := [];
      for i := 0 to |options|
        invariant |keyed| == i
        invariant forall j | 0 <= j < i :: keyed[j] == (options[j].1.length.value + options[j].0.cost, options[j])
      {
        assert options[i] in options;
        keyed := keyed + [(options[i].1.length.value + options[i].0.cost, options[i])];
      }
      var ordered := SortKeyed(keyed);
      sorted := [];
      for i := 0 to |ordered|
        invariant |sorted| == i && forall j | 0 <= j < i :: sorted[j] == ordered[j].1
      {
        sorted := sorted + [ordered[i].1];
      }
      assert Values(keyed) == options && Values(ordered) == sorted;
      ValuesRearranged(keyed, ordered);
      forall i | 0 <= i < |sorted|
        ensures sorted[i] in options && ordered[i].0 == Total(sorted[i])
      {
        assert ordered[i] in ordered;
        assert ordered[i] in keyed;
      }
    }

    /** What it costs to reach the new point this way, in the tree `s`. */
    ghost function TotalIn(s: Snapshot<RRTNode>, p: (RRTNode, RRTOption)): real
      requires p.0 in s.cost && p.1.length.Finite?
    {
      p.1.length.value + s.cost[p.0]
    }

    ghost predicate CheapestIn(s: Snapshot<RRTNode>, options: seq<(RRTNode, RRTOption)>) {
      && (forall p | p in options :: p.0 in s.cost && p.1.length.Finite?)
      && (forall i, j | 0 <= i < j < |options| :: TotalIn(s, options[i]) <= TotalIn(s, options[j]))
    }

    /** In the tree `s` with its head at `head`, `options` are the `limit` cheapest ways to connect `end` to
        the nodes in `asked`, cheapest first, or all of them if there are fewer. */
    ghost predicate Considered(s: Snapshot<RRTNode>, head: RRTNode, end: RRTPoint, fetch: PointFetchMethod,
                               limit: nat, options: seq<(RRTNode, RRTOption)>, asked: set<RRTNode>)
    {
      && Complete(s) && AskedRightly(asked, Below(s.forest, head), end, fetch)
      && |options| <= limit && CheapestIn(s, options)
      && (forall p | p in options :: p.0 in asked && Offered(p.0, p.1, end))
      && (forall n, o | n in asked && Offered(n, o, end) :: KeptOrCrowdedOut(s, end, limit, options, n, o))
    }

    ghost predicate AskedRightly(asked: set<RRTNode>, all: set<RRTNode>, end: RRTPoint, fetch: PointFetchMethod) {
      match fetch
      case RANDOM => asked <= all
      case NEAREST => Nearest(asked, all, end, K_CLOSEST_NODES)
      case NONE => asked == all
    }

    /** All occurrences of an option are in the list, or the list is full of options that are no dearer. */
    ghost predicate KeptOrCrowdedOut(s: Snapshot<RRTNode>, end: RRTPoint, limit: nat,
                                     options: seq<(RRTNode, RRTOption)>, n: RRTNode, o: RRTOption)
    {
      var kept := multiset(options)[(n, o)];
      kept == Times(n, o, end) ||
      (kept < Times(n, o, end) && |options| == limit && o.length.Finite? && n in s.cost && CheapestIn(s, options) &&
       forall p | p in options :: TotalIn(s, p) <= TotalIn(s, (n, o)))
    }

    /** The cheapest ways to connect `end` to the tree under the current head, at most
        `quantityOptions` of them, cheapest first. */
    method PathingOptions(end: RRTPoint, pointFetchMethod: PointFetchMethod, quantityOptions: nat)
      returns (options: seq<(RRTNode, RRTOption)>, ghost asked: set<RRTNode>)
      requires WellFormed() && currentHead in Nodes()
      ensures |options| <= quantityOptions && CheapestIn(View(), options)
      ensures forall p | p in options :: p.0 in Nodes() && Offered(p.0, p.1, end)
      ensures Considered(View(), currentHead, end, pointFetchMethod, quantityOptions, options, asked)
    {
      hide Rooted, Consistent, Below, Gathered, Nearest;
      ConsistentParts(View());
      var all: seq<(RRTNode, RRTOption)>;
      asked := Below(forest, currentHead);
      match pointFetchMethod {
        case RANDOM =>
          var nodes := GetKRandomNodesRecursive(currentHead);
          all := FillOptionsNodes(nodes, end);
          asked := Members(nodes);
        case NEAREST =>
          var nodes := GetKClosestNodes(end, K_CLOSEST_NODES);
          all := FillOptionsNodes(nodes, end);
          asked := Members(nodes);
        case NONE =>
          all := FillOptions(currentHead, end);
      }
      GatheredFinite(all, asked, end);
      var sorted := SortByTotal(all);
      options := if |sorted| < quantityOptions then sorted else sorted[..quantityOptions];
      FirstAreConsidered(end, pointFetchMethod, quantityOptions, all, sorted, options, asked);
    }

    /** Without sampling, all nodes under the head are asked. */
    lemma AllAsked(end: RRTPoint, limit: nat, options: seq<(RRTNode, RRTOption)>, asked: set<RRTNode>)
      requires Considered(View(), currentHead, end, PointFetchMethod.NONE, limit, options, asked)
      ensures Rooted(forest) && asked == Below(forest, currentHead)
      ensures forall p | p in options :: p.0 in View().cost && p.1.length.Finite?
    {
    }

    lemma TotalHere(p: (RRTNode, RRTOption))
      requires p.0 in View().cost && p.1.length.Finite?
      ensures TotalIn(View(), p) == p.1.length.value + p.0.cost
    {
    }

    lemma GatheredFinite(all: seq<(RRTNode, RRTOption)>, asked: set<RRTNode>, end: RRTPoint)
      requires Gathered(all, asked, end)
      ensures AllFinite(all)
    {
    }

    lemma FirstAreConsidered(end: RRTPoint, fetch: PointFetchMethod, limit: nat, all: seq<(RRTNode, RRTOption)>,
                             sorted: seq<(RRTNode, RRTOption)>, options: seq<(RRTNode, RRTOption)>,
                             asked: set<RRTNode>)
      requires WellFormed() && currentHead in Nodes() && Rooted(forest)
      requires AskedRightly(asked, Below(forest, currentHead), end, fetch)
      requires Gathered(all, asked, end) && multiset(sorted) == multiset(all) && AllFinite(sorted) && Cheapest(sorted)
      requires options == if |sorted| < limit then sorted else sorted[..limit]
      ensures Considered(View(), currentHead, end, fetch, limit, options, asked)
    {
      hide Rooted, Consistent, Nearest, AskedRightly, Times, Offered, Gathered, KeptOrCrowdedOut, CheapestIn, Cheapest;
      ConsistentParts(View());
      AskedWithin(asked, Below(forest, currentHead), end, fetch);
      forall p | p in options
        ensures p.0 in asked && Offered(p.0, p.1, end)
      {
        assert p in sorted && p in multiset(sorted);
        GatheredFrom(all, asked, end, p);
      }
      SortedIn(all, sorted, asked, end);
      FirstCheapest(View(), sorted, options);
      forall n, o | n in asked && Offered(n, o, end)
        ensures KeptOrCrowdedOut(View(), end, limit, options, n, o)
      {
        KeptOrNot(View(), end, limit, all, sorted, options, asked, n, o);
      }
    }

    lemma AskedWithin(asked: set<RRTNode>, all: set<RRTNode>, end: RRTPoint, fetch: PointFetchMethod)
      requires AskedRightly(asked, all, end, fetch)
      ensures asked <= all
    {
      hide DistanceToSquared;
    }

    lemma GatheredFrom(all: seq<(RRTNode, RRTOption)>, asked: set<RRTNode>, end: RRTPoint, p: (RRTNode, RRTOption))
      requires Gathered(all, asked, end) && p in multiset(all)
      ensures p.0 in asked && Offered(p.0, p.1, end)
    {
      assert p in all;
    }

    lemma SortedIn(all: seq<(RRTNode, RRTOption)>, sorted: seq<(RRTNode, RRTOption)>, asked: set<RRTNode>,
                   end: RRTPoint)
      requires asked <= Nodes() && Gathered(all, asked, end) && multiset(sorted) == multiset(all)
      requires AllFinite(sorted) && Cheapest(sorted)
      ensures CheapestIn(View(), sorted)
    {
      hide Gathered, Offered;
      forall p | p in sorted
        ensures p.0 in asked && TotalIn(View(), p) == Total(p)
      {
        assert p in multiset(sorted);
        GatheredFrom(all, asked, end, p);
      }
      assert forall i | 0 <= i < |sorted| :: sorted[i] in sorted;
    }

    lemma FirstCheapest(s: Snapshot<RRTNode>, sorted: seq<(RRTNode, RRTOption)>, options: seq<(RRTNode, RRTOption)>)
      requires CheapestIn(s, sorted) && options <= sorted
      ensures CheapestIn(s, options)
    {
      assert forall p | p in options :: p in sorted;
    }

    lemma KeptOrNot(s: Snapshot<RRTNode>, end: RRTPoint, limit: nat, all: seq<(RRTNode, RRTOption)>,
                    sorted: seq<(RRTNode, RRTOption)>, options: seq<(RRTNode, RRTOption)>, asked: set<RRTNode>,
                    n: RRTNode, o: RRTOption)
      requires Gathered(all, asked, end) && multiset(sorted) == multiset(all) && CheapestIn(s, sorted)
      requires options == if |sorted| < limit then sorted else sorted[..limit]
      requires n in asked && Offered(n, o, end)
      ensures KeptOrCrowdedOut(s, end, limit, options, n, o)
    {
      hide Times;
      LeftOver(sorted, |options|, (n, o));
      FirstCheapest(s, sorted, options);
      if multiset(options)[(n, o)] < multiset(sorted)[(n, o)] {
        var j :| |options| <= j < |sorted| && sorted[j] == (n, o);
        assert sorted[j] in sorted;
        forall p | p in options
          ensures TotalIn(s, p) <= TotalIn(s, (n, o))
        {
          var i :| 0 <= i < |options| && options[i] == p;
          assert TotalIn(s, sorted[i]) <= TotalIn(s, sorted[j]);
        }
      }
    }

    /** An element that occurs less often in front occurs again behind. */
    lemma LeftOver<T>(s: seq<T>, k: nat, x: T)
      requires k <= |s|
      ensures multiset(s[..k])[x] <= multiset(s)[x]
      ensures multiset(s[..k])[x] < multiset(s)[x] ==> exists j :: k <= j < |s| && s[j] == x
    {
      assert s == s[..k] + s[k..];
      if multiset(s[..k])[x] < multiset(s)[x] {
        assert x in s[k..];
        var i :| 0 <= i < |s| - k && s[k..][i] == x;
        assert s[k + i] == x;
      }
    }
  }
}
