/** The planner: one search tree, extended goal by goal, and the flight path read off it. */
module Rrts {
  import opened Options
  import opened Reals
  import opened Points
  import opened Environments
  import opened Forests
  import opened StarPasses
  import opened RrtTrees
  import opened Sorting

  /** Bounds on how many curves are compared when a new point is connected. */
  const MAX_DUBINS_OPTIONS_TO_PARSE := 16
  const TOTAL_OPTIONS_FOR_GOAL_CONNECTION := 2048
  const INT_MAX := 0x7fff_ffff

  const M_PI := 3.14159265358979323846

  /** The headings with which a goal is approached unless others are given. */
  const DEFAULT_ANGLES := [0.0, M_PI / 6.0, M_PI / 4.0, M_PI / 3.0, M_PI / 2.0, 2.0 * M_PI / 3.0, 3.0 * M_PI / 4.0,
                           5.0 * M_PI / 6.0, M_PI, 7.0 * M_PI / 6.0, 5.0 * M_PI / 4.0, 4.0 * M_PI / 3.0,
                           3.0 * M_PI / 2.0, 5.0 * M_PI / 3.0, 7.0 * M_PI / 4.0, 11.0 * M_PI / 6.0]

  datatype RRTConfig = RRTConfig(iterationsPerWaypoint: int, rewireRadius: real, optimize: bool,
                                 pointFetchMethod: PointFetchMethod, allowedToSkipWaypoints: bool)

  /** `path` with altitudes climbing evenly from `start` by `step` a point. */
  function AtHeights(path: seq<XYZCoord>, start: real, step: real): (r: seq<XYZCoord>)
    ensures |r| == |path|
    ensures forall i | 0 <= i < |path| :: Ground(r[i]) == Ground(path[i]) && r[i].z == start + i as real * step
  {
    seq(|path|, i requires 0 <= i < |path| => path[i].(z := start + i as real * step))
  }

  lemma TrackAtHeights(path: seq<XYZCoord>, start: real, step: real)
    ensures Track(AtHeights(path, start, step)) == Track(path)
  {
  }

  /** The altitudes along `leg` rise or fall evenly: it starts at `from`, and one step past its end would
      be at `to`. */
  ghost predicate Climbs(leg: seq<XYZCoord>, from: real, to: real) {
    forall i | 0 <= i < |leg| :: (leg[i].z - from) * |leg| as real == i as real * (to - from)
  }

  lemma ClimbsFrom(path: seq<XYZCoord>, from: real, to: real)
    ensures Climbs(AtHeights(path, from, if |path| == 0 then 0.0 else (to - from) / |path| as real), from, to)
  {
    if path != [] {
      var n, d := |path| as real, to - from;
      var step := d / n;
      assert step * n == d;
      var leg := AtHeights(path, from, step);
      forall i | 0 <= i < |leg|
        ensures (leg[i].z - from) * n == i as real * d
      {
        Regroup(i as real, step, n);
      }
    }
  }

  lemma Regroup(i: real, step: real, n: real)
    ensures (i * step) * n == i * (step * n)
  {
  }

  lemma ClimbsAt(leg: seq<XYZCoord>, from: real, to: real, i: nat)
    requires Climbs(leg, from, to) && i < |leg|
    ensures leg[i].z == from + i as real * ((to - from) / |leg| as real)
  {
    var n, d := |leg| as real, to - from;
    var step := d / n;
    assert step * n == d;
    Regroup(i as real, step, n);
    Cancel(leg[i].z - from, i as real * step, n);
  }

  /** So its first point is at `from`, all steps are the same, and the next one would reach `to`. */
  lemma ClimbsEvenly(leg: seq<XYZCoord>, from: real, to: real, i: nat)
    requires Climbs(leg, from, to) && i < |leg|
    ensures leg[0].z == from
    ensures var step := (to - from) / |leg| as real;
            if i + 1 < |leg| then leg[i + 1].z == leg[i].z + step else leg[i].z + step == to
  {
    var step := (to - from) / |leg| as real;
    ClimbsAt(leg, from, to, 0);
    ClimbsAt(leg, from, to, i);
    OneMoreStep(i, step);
    if i + 1 < |leg| {
      ClimbsAt(leg, from, to, i + 1);
    } else {
      assert step * |leg| as real == to - from;
    }
  }

  lemma OneMoreStep(i: nat, step: real)
    ensures (i + 1) as real * step == i as real * step + step
  {
  }

  /** A heading at the goal, the node to come from, and the curve. */
  type Choice = (RRTPoint, (RRTNode, RRTOption))

  /** What one random sample did: the options looked at and the nodes asked for them; the node added, from
      which option, and the tree with it; and the tree in the end. */
  datatype Growth = Growth(sample: RRTPoint, options: seq<(RRTNode, RRTOption)>, asked: set<RRTNode>,
                           newNode: RRTNode?, chosen: nat, grown: Snapshot<RRTNode>, after: Snapshot<RRTNode>)

  /** What one attempt to connect a goal did: the options of each heading, all of them in the order in which
      they were tried, the goal node if one was found, from which choice, and the tree in the end. */
  datatype Attempt = Attempt(lists: seq<seq<(RRTNode, RRTOption)>>, choices: seq<Choice>, goalNode: RRTNode?,
                             chosen: nat, after: Snapshot<RRTNode>)

  /** A round of samples and the one or two attempts after it. */
  datatype Round = Round(growths: seq<Growth>, first: Attempt, second: Option<Attempt>)
  {
    ghost function Last(): Attempt {
      if second.Some? then second.value else first
    }
  }

  /** What was done for one goal: an attempt straight away, and the rounds after it, if it failed. */
  datatype Turn = Turn(direct: Attempt, rounds: seq<Round>)
  {
    ghost function Last(): Attempt {
      if rounds == [] then direct else rounds[|rounds| - 1].Last()
    }
  }

  class RRT {
    const tree: RRTTree
    const config: RRTConfig
    const angles: seq<real>
    var flightPath: seq<XYZCoord>

    /** The goals connected so far, in order, where on the flight path each is reached, and the
        length of the edges flown. */
    ghost var connected: seq<nat>
    ghost var visits: seq<nat>
    ghost var distance: real

    ghost predicate Valid()
      reads this, tree, tree.Nodes()
    {
      && tree.Valid()
      && |angles| > 0
      && distance == tree.currentHead.cost - tree.root.cost
      && OnTrack()
      && InGoalOrder(connected) && GoalsReached(flightPath, connected, visits) && |flightPath| == End(visits)
      && (connected == [] ==> tree.currentHead == tree.root)
      && (connected != [] ==> tree.currentHead.point.coord == tree.airspace.goals[connected[|connected| - 1]])
    }

    /** Altitude aside, the flight path is what is flown along the edges of the tree, as they are
        now, from the root to the current head. */
    ghost predicate OnTrack()
      requires tree.Valid()
      reads this, tree, tree.Nodes()
    {
      Track(flightPath) == Track(tree.WayToHead())
    }

    ghost predicate InGoalOrder(goals: seq<nat>) {
      && (forall k | 0 <= k < |goals| :: goals[k] < |tree.airspace.goals|)
      && (forall j, k | 0 <= j < k < |goals| :: goals[j] < goals[k])
    }

    /** Flying along `path`, each goal of the list is flown over, in order, at the given places, and each
        leg climbs evenly. */
    ghost predicate GoalsReached(path: seq<XYZCoord>, goals: seq<nat>, at: seq<nat>) {
      && |at| == |goals|
      && (forall k | 0 <= k < |goals| :: GoalReached(path, goals[k], End(at[..k]), at[k]))
    }

    ghost function End(at: seq<nat>): nat {
      if at == [] then 0 else at[|at| - 1]
    }

    /** The leg to the goal starts at the altitude of the goal listed before it, or of the start, and climbs to
        its own. */
    ghost predicate GoalReached(path: seq<XYZCoord>, goal: nat, from: nat, at: nat) {
      && goal < |tree.airspace.goals| && from <= at <= |path|
      && Over(tree.root.point.coord, path[..at]) == Ground(tree.airspace.goals[goal])
      && Climbs(path[from..at], if goal == 0 then tree.root.point.coord.z else tree.airspace.goals[goal - 1].z,
                tree.airspace.goals[goal].z)
    }

    constructor (start: RRTPoint, airspace: Environment, dubins: Dubins, config: RRTConfig, angles: seq<real>)
      requires dubins.Sane()
      ensures Valid() && flightPath == [] && connected == [] && fresh(tree) && fresh(tree.Nodes())
      ensures this.angles == if angles == [] then DEFAULT_ANGLES else angles
    {
      hide tree.Valid, tree.WellFormed, Valid;
      tree := new RRTTree(start, airspace, dubins);
      this.config, flightPath := config, [];
      this.angles := if |angles| != 0 then angles else DEFAULT_ANGLES;
      connected, visits, distance := [], [], 0.0;
      new;
      NothingFlown();
    }

    lemma NothingFlown()
      requires tree.Valid() && tree.currentHead == tree.root && |angles| > 0
      requires flightPath == [] && connected == [] && visits == [] && distance == 0.0
      ensures Valid()
    {
      hide Rooted, Way, Above, Below, Flyable;
      WayStep(tree.View(), tree.root, tree.root);
    }

    ghost function ChoicePath(choice: Choice): seq<XYZCoord> {
      tree.dubins.generatePoints(choice.1.0.point, choice.0, choice.1.1.dubinsPath, choice.1.1.hasStraight)
    }

    /** In `after`, `n` is a new leaf at the end of the choice's curve, which stays in bounds. */
    ghost predicate HungBy(s: Snapshot<RRTNode>, c: Choice, n: RRTNode, after: Snapshot<RRTNode>) {
      && Complete(s) && c.1.0 in s.forest.kids && n !in s.forest.kids && n.point == c.0 && c.1.1.length.Finite?
      && tree.airspace.PathInBounds(ChoicePath(c))
      && after == WithLeaf(s, c.1.0, n, Edge(c.1.1.length.value, ChoicePath(c)))
    }

    /** The first of `options` whose curve stays in bounds becomes a new node. */
    method ParseOptions(options: seq<(RRTNode, RRTOption)>, sample: RRTPoint)
      returns (newNode: RRTNode?, ghost chosen: nat)
      requires tree.Valid() && tree.AllFinite(options)
      requires forall p | p in options :: p.0 in Below(tree.forest, tree.currentHead) &&
                                          tree.Offered(p.0, p.1, sample)
      modifies tree`forest, tree`treeSize, tree.Nodes()`reachable
      ensures tree.Valid() && tree.WayToHead() == old(tree.WayToHead())
      ensures newNode == null ==> tree.View() == old(tree.View()) && tree.Nodes() == old(tree.Nodes())
      ensures newNode == null ==> NoneFlies(options, |options|, sample)
      ensures newNode != null ==>
                chosen < |options| && NoneFlies(options, chosen, sample) &&
                HungBy(old(tree.View()), (sample, options[chosen]), newNode, tree.View())
      ensures newNode != null ==>
                fresh(newNode) && tree.Nodes() == old(tree.Nodes()) + {newNode} && newNode.point == sample &&
                newNode in Below(tree.forest, tree.currentHead) && newNode != tree.currentHead
    {
      hide tree.Valid, tree.WellFormed, Rooted, Above, Below, tree.WayToHead;
      for i := 0 to |options|
        invariant tree.Valid() && tree.WayToHead() == old(tree.WayToHead())
        invariant tree.View() == old(tree.View()) && tree.Nodes() == old(tree.Nodes())
        invariant tree.forest == old(tree.forest) && NoneFlies(options, i, sample)
      {
        assert options[i] in options;
        OfferedFits(options[i].0, options[i].1, sample);
        newNode := tree.AddSample(options[i].0, sample, options[i].1);
        chosen := i;
        if newNode != null {
          return;
        }
      }
      newNode, chosen := null, 0;
    }

    /** None of the first `n` options stays in bounds. */
    ghost predicate NoneFlies(options: seq<(RRTNode, RRTOption)>, n: nat, sample: RRTPoint) {
      forall i | 0 <= i < n && i < |options| :: !tree.airspace.PathInBounds(ChoicePath((sample, options[i])))
    }

    lemma OfferedFits(n: RRTNode, o: RRTOption, sample: RRTPoint)
      requires tree.Valid() && n in Below(tree.forest, tree.currentHead) && tree.Offered(n, o, sample)
      ensures tree.currentHead in tree.Nodes() && n in tree.Nodes()
      ensures Above(tree.forest, tree.currentHead, n)
      ensures o.length.Finite? && tree.dubins.Offers(n.point, sample, o)
    {
    }

    lemma ValidTree()
      requires tree.Valid()
      ensures tree.WellFormed() && Rooted(tree.forest) && tree.currentHead in tree.Nodes() && tree.dubins.Sane()
    {
    }

    lemma InBelow(f: Forest<RRTNode>, a: RRTNode, n: RRTNode)
      requires Rooted(f) && n in Below(f, a)
      ensures n in f.kids && Above(f, a, n)
    {
    }

    method OptimizeTree(sample: RRTNode)
      requires tree.Valid() && sample in Below(tree.forest, tree.currentHead) && sample != tree.currentHead
      modifies tree`forest, tree.Nodes()
      ensures tree.Valid() && tree.Nodes() == old(tree.Nodes()) && tree.WayToHead() == old(tree.WayToHead())
      ensures Below(tree.forest, tree.currentHead) == old(Below(tree.forest, tree.currentHead))
      ensures tree.currentHead.cost == old(tree.currentHead.cost) && tree.root.cost == old(tree.root.cost)
      ensures forall n | n in tree.Nodes() :: n.cost <= old(n.cost)
      ensures tree.Optimized(old(tree.View()), tree.currentHead, sample, Squared(config.rewireRadius), tree.View())
    {
      hide tree.Valid, tree.WellFormed, tree.WayToHead, tree.Optimized, Rooted, Above, Below, Consistent, Squared;
      ValidTree();
      InBelow(tree.forest, tree.currentHead, sample);
      tree.RRTStar(sample, config.rewireRadius);
    }

    // ----- connecting a goal

    /** The node would be reached at the goal with one of the configured headings. */
    ghost predicate GoalOption(goal: XYZCoord, c: Choice) {
      && c.0.coord == goal && c.0.psi in angles
      && tree.Offered(c.1.0, c.1.1, c.0)
    }

    /** How many options each heading may contribute. */
    function RoomEach(totalOptions: nat): nat
      requires |angles| > 0
    {
      totalOptions / |angles|
    }

    function Headed(end: RRTPoint, options: seq<(RRTNode, RRTOption)>): (r: seq<Choice>)
      ensures |r| == |options|
    {
      seq(|options|, i requires 0 <= i < |options| => (end, options[i]))
    }

    /** The options of the first headings, one list after the other. */
    ghost function Joined(goal: XYZCoord, lists: seq<seq<(RRTNode, RRTOption)>>): seq<Choice>
      requires |lists| <= |angles|
    {
      if lists == [] then []
      else
        var a := |lists| - 1;
        Joined(goal, lists[..a]) + Headed(RRTPoint(goal, angles[a]), lists[a])
    }

    /** Each heading contributes the `each` cheapest options it has in the tree `s`. */
    ghost predicate ListsFit(s: Snapshot<RRTNode>, head: RRTNode, goal: XYZCoord, each: nat,
                             lists: seq<seq<(RRTNode, RRTOption)>>)
    {
      && Complete(s) && |lists| <= |angles|
      && forall a | 0 <= a < |lists| ::
           tree.Considered(s, head, RRTPoint(goal, angles[a]), PointFetchMethod.NONE, each, lists[a],
                           Below(s.forest, head))
    }

    ghost predicate InOrder(s: Snapshot<RRTNode>, choices: seq<Choice>) {
      && (forall c | c in choices :: c.1.0 in s.cost && c.1.1.length.Finite?)
      && (forall i, j | 0 <= i < j < |choices| :: tree.TotalIn(s, choices[i].1) <= tree.TotalIn(s, choices[j].1))
    }

    /** All that the headings contribute, cheapest first. */
    ghost predicate GoalChoices(s: Snapshot<RRTNode>, head: RRTNode, goal: XYZCoord, each: nat,
                                lists: seq<seq<(RRTNode, RRTOption)>>, choices: seq<Choice>)
    {
      && ListsFit(s, head, goal, each, lists) && |lists| == |angles|
      && multiset(choices) == multiset(Joined(goal, lists)) && InOrder(s, choices)
    }

    /** The ways to reach the goal, each heading contributing its cheapest ones; cheapest first. */
    method GetOptionsToGoal(goalIndex: nat, totalOptions: nat)
      returns (choices: seq<Choice>, ghost lists: seq<seq<(RRTNode, RRTOption)>>)
      requires tree.Valid() && |angles| > 0 && goalIndex < |tree.airspace.goals|
      ensures InOrder(tree.View(), choices)
      ensures forall c | c in choices :: GoalOption(tree.airspace.goals[goalIndex], c)
      ensures GoalChoices(tree.View(), tree.currentHead, tree.airspace.goals[goalIndex], RoomEach(totalOptions),
                          lists, choices)
    {
      hide tree.WellFormed, tree.Valid, Rooted, Below, tree.Considered, Complete;
      ValidTree();
      ConsistentParts(tree.View());
      var goal := tree.airspace.goals[goalIndex];
      var each := RoomEach(totalOptions);
      var keyed: seq<(real, Choice)> := [];
      lists := [];
      for a := 0 to |angles|
        invariant |lists| == a && ListsFit(tree.View(), tree.currentHead, goal, each, lists)
        invariant Values(keyed) == Joined(goal, lists) && AllPriced(tree.View(), keyed)
      {
        ghost var list;
        keyed, list := AddHeading(goal, keyed, a, each);
        NextList(tree.View(), tree.currentHead, goal, each, lists, list);
        lists := lists + [list];
      }
      var sorted := SortKeyed(keyed);
      choices := [];
      for i := 0 to |sorted|
        invariant |choices| == i && forall j | 0 <= j < i :: choices[j] == sorted[j].1
      {
        choices := choices + [sorted[i].1];
      }
      assert choices == Values(sorted);
      ValuesRearranged(keyed, sorted);
      SortedInOrder(tree.View(), keyed, sorted);
      forall c | c in choices
        ensures GoalOption(goal, c)
      {
        ChoiceFits(tree.View(), tree.currentHead, goal, each, lists, choices, c);
      }
    }

    /** Every choice is listed with what it costs in all. */
    ghost predicate AllPriced(s: Snapshot<RRTNode>, keyed: seq<(real, Choice)>) {
      forall x | x in keyed :: Priced(s, x)
    }

    ghost predicate Priced(s: Snapshot<RRTNode>, x: (real, Choice)) {
      x.1.1.0 in s.cost && x.1.1.1.length.Finite? && x.0 == tree.TotalIn(s, x.1.1)
    }

    /** The best options for one heading, each with its total. */
    method AddHeading(goal: XYZCoord, before: seq<(real, Choice)>, a: nat, each: nat)
      returns (keyed: seq<(real, Choice)>, ghost list: seq<(RRTNode, RRTOption)>)
      requires tree.WellFormed() && tree.currentHead in tree.Nodes() && Rooted(tree.forest) && a < |angles|
      requires AllPriced(tree.View(), before)
      ensures tree.Considered(tree.View(), tree.currentHead, RRTPoint(goal, angles[a]), PointFetchMethod.NONE, each,
                              list, Below(tree.forest, tree.currentHead))
      ensures AllPriced(tree.View(), keyed)
      ensures Values(keyed) == Values(before) + Headed(RRTPoint(goal, angles[a]), list)
    {
      hide tree.WellFormed, Rooted, Below, tree.Considered;
      var end := RRTPoint(goal, angles[a]);
      var options, asked := tree.PathingOptions(end, PointFetchMethod.NONE, each);
      tree.AllAsked(end, each, options, asked);
      keyed, list := before, options;
      for i := 0 to |options|
        invariant AllPriced(tree.View(), keyed)
        invariant Values(keyed) == Values(before) + Headed(end, options[..i])
      {
        assert options[i] in options;
        tree.TotalHere(options[i]);
        NextValue(keyed, (options[i].1.length.value + options[i].0.cost, (end, options[i])));
        keyed := keyed + [(options[i].1.length.value + options[i].0.cost, (end, options[i]))];
        assert Headed(end, options[..i + 1]) == Headed(end, options[..i]) + [(end, options[i])];
      }
      assert options[..|options|] == options;
    }

    lemma NextValue<T>(keyed: seq<(real, T)>, x: (real, T))
      ensures Values(keyed + [x]) == Values(keyed) + [x.1]
    {
    }

    lemma NextList(s: Snapshot<RRTNode>, head: RRTNode, goal: XYZCoord, each: nat,
                   lists: seq<seq<(RRTNode, RRTOption)>>, list: seq<(RRTNode, RRTOption)>)
      requires ListsFit(s, head, goal, each, lists) && |lists| < |angles|
      requires tree.Considered(s, head, RRTPoint(goal, angles[|lists|]), PointFetchMethod.NONE, each, list,
                               Below(s.forest, head))
      ensures ListsFit(s, head, goal, each, lists + [list])
      ensures Joined(goal, lists + [list]) == Joined(goal, lists) + Headed(RRTPoint(goal, angles[|lists|]), list)
    {
      hide tree.Considered, Headed, Below, Complete;
      assert (lists + [list])[..|lists|] == lists;
    }

    lemma SortedInOrder(s: Snapshot<RRTNode>, keyed: seq<(real, Choice)>, sorted: seq<(real, Choice)>)
      requires AllPriced(s, keyed) && Ascending(sorted) && forall x | x in sorted :: x in keyed
      ensures InOrder(s, Values(sorted))
    {
      hide tree.TotalIn;
      forall j | 0 <= j < |sorted|
        ensures Priced(s, sorted[j]) && Values(sorted)[j] == sorted[j].1
      {
        assert sorted[j] in sorted;
      }
    }

    /** Each choice is an option of its heading. */
    lemma {:induction false} JoinedFrom(goal: XYZCoord, lists: seq<seq<(RRTNode, RRTOption)>>, c: Choice)
      returns (a: nat)
      requires |lists| <= |angles| && c in Joined(goal, lists)
      ensures a < |lists| && c.0 == RRTPoint(goal, angles[a]) && c.1 in lists[a]
      decreases |lists|
    {
      a := |lists| - 1;
      if c in Joined(goal, lists[..a]) { a := JoinedFrom(goal, lists[..a], c); }
    }

    lemma {:induction false} JoinedHolds(goal: XYZCoord, lists: seq<seq<(RRTNode, RRTOption)>>, a: nat,
                                         q: (RRTNode, RRTOption))
      requires |lists| <= |angles| && a < |lists| && q in lists[a]
      ensures (RRTPoint(goal, angles[a]), q) in Joined(goal, lists)
      decreases |lists|
    {
      var last := |lists| - 1;
      if a < last {
        JoinedHolds(goal, lists[..last], a, q);
      } else {
        var i :| 0 <= i < |lists[a]| && lists[a][i] == q;
        assert Headed(RRTPoint(goal, angles[a]), lists[a])[i] == (RRTPoint(goal, angles[a]), q);
      }
    }

    lemma ChoiceFits(s: Snapshot<RRTNode>, head: RRTNode, goal: XYZCoord, each: nat,
                     lists: seq<seq<(RRTNode, RRTOption)>>, choices: seq<Choice>, c: Choice)
      requires GoalChoices(s, head, goal, each, lists, choices) && c in choices
      ensures Complete(s) && GoalOption(goal, c) && c.1.0 in Below(s.forest, head)
      ensures c.1.0 in s.cost && c.1.1.length.Finite?
    {
      hide Complete, Below, Joined, tree.Offered, tree.KeptOrCrowdedOut;
      assert c in multiset(choices);
      var a := JoinedFrom(goal, lists, c);
    }

    /** None of the first `n` choices stays in bounds. */
    ghost predicate NoneReaches(choices: seq<Choice>, n: nat) {
      forall j | 0 <= j < n && j < |choices| :: !tree.airspace.PathInBounds(ChoicePath(choices[j]))
    }

    /** Builds, without hanging it up, the goal node of the first option considered that stays in
        bounds. */
    method SampleToGoal(goalIndex: nat, totalOptions: nat)
      returns (goalNode: RRTNode?, parent: RRTNode?, ghost lists: seq<seq<(RRTNode, RRTOption)>>,
               ghost choices: seq<Choice>, ghost chosen: nat)
      requires tree.Valid() && |angles| > 0 && goalIndex < |tree.airspace.goals|
      ensures GoalChoices(tree.View(), tree.currentHead, tree.airspace.goals[goalIndex], RoomEach(totalOptions),
                          lists, choices)
      ensures goalNode == null ==> NoneReaches(choices, |choices|)
      ensures goalNode != null ==>
                chosen < |choices| && NoneReaches(choices, chosen) &&
                parent == choices[chosen].1.0 && goalNode.point == choices[chosen].0 &&
                goalNode.path == ChoicePath(choices[chosen]) && tree.airspace.PathInBounds(goalNode.path) &&
                choices[chosen].1.1.length == Finite(goalNode.pathLength)
      ensures goalNode != null ==>
                fresh(goalNode) && parent != null && tree.Fits(parent, goalNode) &&
                goalNode.point.coord == tree.airspace.goals[goalIndex]
    {
      hide tree.WellFormed, Rooted, Below, Above, tree.Offered, Flyable, tree.Valid, GoalChoices;
      hide Environment.PathInBounds, RoomEach, Dubins.Offers, Complete;
      ValidTree();
      var goal := tree.airspace.goals[goalIndex];
      var allOptions;
      allOptions, lists := GetOptionsToGoal(goalIndex, totalOptions);
      choices, chosen := allOptions, 0;
      for i := 0 to |allOptions|
        invariant NoneReaches(choices, i)
        invariant GoalChoices(tree.View(), tree.currentHead, goal, RoomEach(totalOptions), lists, choices)
      {
        var (end, (anchor, option)) := allOptions[i];
        ChoiceFits(tree.View(), tree.currentHead, goal, RoomEach(totalOptions), lists, choices, choices[i]);
        OfferedFits(anchor, option, end);
        goalNode := tree.GenerateNode(anchor, end, option);
        if goalNode != null {
          parent, chosen := anchor, i;
          return;
        }
      }
      goalNode, parent := null, null;
    }

    /** What an attempt to connect the goal does to the tree `s`: the first choice that stays in bounds becomes
        a leaf; nothing changes if there is none. */
    ghost predicate Attempted(s: Snapshot<RRTNode>, head: RRTNode, goal: XYZCoord, each: nat, a: Attempt) {
      && GoalChoices(s, head, goal, each, a.lists, a.choices)
      && if a.goalNode == null then a.after == s && NoneReaches(a.choices, |a.choices|)
         else a.chosen < |a.choices| && NoneReaches(a.choices, a.chosen) &&
              HungBy(s, a.choices[a.chosen], a.goalNode, a.after)
    }

    /** A heading, an anchor and a curve that would connect the goal within the airspace. */
    ghost predicate Usable(goal: XYZCoord, c: Choice) {
      GoalOption(goal, c) && tree.airspace.PathInBounds(ChoicePath(c))
    }

    /** So a usable option cheaper than the one taken, or any if the attempt failed, was crowded out: its heading
        had as many options as there was room for, none of them dearer, and all of them left the airspace. */
    lemma OnlyCrowdedOut(s: Snapshot<RRTNode>, head: RRTNode, goal: XYZCoord, each: nat, a: Attempt,
                         h: nat, n: RRTNode, o: RRTOption)
      requires Attempted(s, head, goal, each, a) && h < |angles| && Usable(goal, (RRTPoint(goal, angles[h]), (n, o)))
      requires n in s.cost && n in Below(s.forest, head) && o.length.Finite?
      requires a.goalNode != null ==>
                 a.goalNode in a.after.cost && o.length.value + s.cost[n] < a.after.cost[a.goalNode]
      ensures |a.lists| == |angles| && |a.lists[h]| == each
      ensures forall q | q in a.lists[h] ::
                q.0 in s.cost && q.1.length.Finite? && tree.TotalIn(s, q) <= tree.TotalIn(s, (n, o)) &&
                !tree.airspace.PathInBounds(ChoicePath((RRTPoint(goal, angles[h]), q)))
    {
      hide Rooted, Below, Joined, Environment.PathInBounds;
      var end := RRTPoint(goal, angles[h]);
      assert tree.Considered(s, head, end, PointFetchMethod.NONE, each, a.lists[h], Below(s.forest, head));
      assert tree.KeptOrCrowdedOut(s, end, each, a.lists[h], n, o);
      if (n, o) in a.lists[h] {
        TriedInVain(s, goal, each, a, head, h, (n, o));
        assert false;
      }
      assert o in multiset(tree.dubins.allOptions(n.point, end, false));
      forall q | q in a.lists[h]
        ensures !tree.airspace.PathInBounds(ChoicePath((end, q)))
      {
        TriedInVain(s, goal, each, a, head, h, q);
      }
    }

    /** Choices that are cheaper than the one taken were tried in vain. */
    lemma TriedInVain(s: Snapshot<RRTNode>, goal: XYZCoord, each: nat, a: Attempt, head: RRTNode, h: nat,
                      q: (RRTNode, RRTOption))
      requires Attempted(s, head, goal, each, a) && h < |angles| && q in a.lists[h]
      requires q.0 in s.cost && q.1.length.Finite?
      requires a.goalNode != null ==> a.goalNode in a.after.cost && tree.TotalIn(s, q) < a.after.cost[a.goalNode]
      ensures !tree.airspace.PathInBounds(ChoicePath((RRTPoint(goal, angles[h]), q)))
    {
      hide Joined, Environment.PathInBounds, ListsFit, Below;
      var c := (RRTPoint(goal, angles[h]), q);
      JoinedHolds(goal, a.lists, h, q);
      assert c in multiset(Joined(goal, a.lists));
      assert c in a.choices;
      var j :| 0 <= j < |a.choices| && a.choices[j] == c;
      if a.goalNode != null {
        assert a.choices[a.chosen] in a.choices;
        assert a.after.cost[a.goalNode] == tree.TotalIn(s, a.choices[a.chosen].1);
      }
    }

    // ----- flying to a connected goal

    /** Where a leg starts climbing from, and by how much a point. */
    function LegStart(goalIndex: nat): real
      requires goalIndex < |tree.airspace.goals|
    {
      if goalIndex == 0 then tree.root.point.coord.z else tree.airspace.goals[goalIndex - 1].z
    }

    function LegStep(goalIndex: nat, size: nat): real
      requires goalIndex < |tree.airspace.goals|
    {
      if size == 0 then 0.0
      else (tree.airspace.goals[goalIndex].z - LegStart(goalIndex)) / size as real
    }

    method ClimbingLeg(flown: seq<XYZCoord>, start: real, step: real) returns (leg: seq<XYZCoord>)
      ensures leg == AtHeights(flown, start, step)
    {
      leg := flown;
      var height := start;
      for i := 0 to |leg|
        invariant |leg| == |flown| && height == start + i as real * step
        invariant forall j | 0 <= j < i :: leg[j] == flown[j].(z := start + j as real * step)
        invariant forall j | i <= j < |flown| :: leg[j] == flown[j]
      {
        leg := leg[i := leg[i].(z := height)];
        OneMoreStep(i, step);
        height := height + step;
      }
    }

    /** The edges from the current head to the new goal node, once it is in the tree. */
    method HangGoal(goalNode: RRTNode, parent: RRTNode)
      returns (flown: seq<XYZCoord>, ghost chain: seq<RRTNode>, ghost length: real)
      requires tree.Valid() && tree.Fits(parent, goalNode)
      modifies tree`forest, tree`treeSize, tree.Nodes()`reachable
      ensures tree.Valid() && tree.Nodes() == old(tree.Nodes()) + {goalNode} && goalNode.reachable == []
      ensures tree.WayToHead() == old(tree.WayToHead())
      ensures old(Complete(tree.View())) && parent in old(tree.forest.kids)
      ensures tree.View() == WithLeaf(old(tree.View()), parent, goalNode, Edge(goalNode.pathLength, goalNode.path))
      ensures Complete(tree.View()) && ChainIn(tree.View(), tree.currentHead, goalNode)
      ensures chain == Chain(tree.forest, tree.currentHead, goalNode)
      ensures flown == Way(tree.View(), tree.currentHead, goalNode) == Flown(tree.View().edge, chain)
      ensures length == TotalLength(tree.View().edge, chain) == goalNode.cost - tree.currentHead.cost
    {
      hide Rooted, Above, Consistent, Flyable, Below, Grown, WithLeaf, tree.AllFlyable, Chain, ChainIn;
      hide Flown, TotalLength, WithLeafShape;
      ConsistentParts(tree.View());
      var added := tree.AddNode(parent, goalNode);
      ghost var s, head := tree.View(), tree.currentHead;
      InBelow(s.forest, head, goalNode);
      flown := tree.GetPathSegment(goalNode);
      assert tree.View() == s;
      chain := Chain(s.forest, head, goalNode);
      ChainCost(s, head, goalNode);
      length := TotalLength(s.edge, chain);
    }

    /** Hangs the goal node up, flies the edges leading to it and starts over from there. */
    method AddNodeToTree(goalNode: RRTNode, parent: RRTNode, goalIndex: nat) returns (ghost chain: seq<RRTNode>)
      requires Valid() && goalIndex < |tree.airspace.goals| && tree.Fits(parent, goalNode)
      requires goalNode.point.coord == tree.airspace.goals[goalIndex]
      requires forall k | 0 <= k < |connected| :: connected[k] < goalIndex
      modifies this`flightPath, this`connected, this`visits, this`distance
      modifies tree`forest, tree`treeSize, tree`currentHead, tree.Nodes()`reachable
      ensures Valid() && tree.Nodes() == old(tree.Nodes()) + {goalNode}
      ensures tree.currentHead == goalNode && connected == old(connected) + [goalIndex]
      ensures visits == old(visits) + [|flightPath|]
      ensures old(Complete(tree.View())) && parent in old(tree.forest.kids)
      ensures tree.View() == WithLeaf(old(tree.View()), parent, goalNode, Edge(goalNode.pathLength, goalNode.path))
      ensures Complete(tree.View()) && ChainIn(tree.View(), old(tree.currentHead), goalNode)
      ensures chain == Chain(tree.forest, old(tree.currentHead), goalNode)
      ensures var flown := Flown(tree.View().edge, chain);
              flightPath == old(flightPath) + AtHeights(flown, LegStart(goalIndex), LegStep(goalIndex, |flown|))
      ensures distance == old(distance) + TotalLength(tree.View().edge, chain)
    {
      hide Rooted, Above, Consistent, Complete, Flyable, Below, tree.Valid, tree.AllFlyable;
      hide Chain, ChainIn, Flown, Way, TotalLength, Contents, tree.WellFormed, tree.WayToHead, GoalsReached;
      ghost var head := tree.currentHead;
      var flown;
      ghost var length;
      flown, chain, length := HangGoal(goalNode, parent);
      var leg := ClimbingLeg(flown, LegStart(goalIndex), LegStep(goalIndex, |flown|));
      ghost var s := tree.View();
      LegOnTrack(goalNode, flown, leg, LegStart(goalIndex), LegStep(goalIndex, |flown|));
      ClimbsFrom(flown, LegStart(goalIndex), tree.airspace.goals[goalIndex].z);
      StartOver(goalNode, goalIndex, leg, length);
      assert tree.View() == s;
    }

    /** The leg continues the track down to the goal node, and ends over it. */
    lemma LegOnTrack(goalNode: RRTNode, flown: seq<XYZCoord>, leg: seq<XYZCoord>, start: real, step: real)
      requires tree.Valid() && OnTrack() && Complete(tree.View()) && ChainIn(tree.View(), tree.currentHead, goalNode)
      requires flown == Way(tree.View(), tree.currentHead, goalNode) && leg == AtHeights(flown, start, step)
      ensures Above(tree.forest, tree.root, goalNode)
      ensures Track(flightPath + leg) == Track(Way(tree.View(), tree.root, goalNode))
      ensures Over(tree.root.point.coord, flightPath + leg) == Ground(goalNode.point.coord)
    {
      hide Rooted, Above, Way, Flyable, Chain, CostLink, Below, AtHeights;
      var s := tree.View();
      RootAbove(s.forest, tree.currentHead);
      WayJoins(s, tree.root, tree.currentHead, goalNode);
      TrackJoins(flightPath, leg);
      TrackAtHeights(flown, start, step);
      TrackJoins(tree.WayToHead(), flown);
      tree.WayLands(s, tree.root, goalNode);
      OverTrack(tree.root.point.coord, flightPath + leg, Way(s, tree.root, goalNode));
    }

    /** Appends the leg to the flight path and makes the goal the new head of the tree. */
    method StartOver(goalNode: RRTNode, goalIndex: nat, leg: seq<XYZCoord>, ghost length: real)
      requires tree.Valid() && |angles| > 0 && goalNode in tree.Nodes() && goalNode.reachable == []
      requires distance == tree.currentHead.cost - tree.root.cost && length == goalNode.cost - tree.currentHead.cost
      requires Complete(tree.View()) && Above(tree.forest, tree.root, goalNode)
      requires Track(flightPath + leg) == Track(Way(tree.View(), tree.root, goalNode))
      requires Over(tree.root.point.coord, flightPath + leg) == Ground(goalNode.point.coord)
      requires InGoalOrder(connected) && GoalsReached(flightPath, connected, visits) && |flightPath| == End(visits)
      requires goalIndex < |tree.airspace.goals|
      requires Climbs(leg, LegStart(goalIndex), tree.airspace.goals[goalIndex].z)
      requires goalNode.point.coord == tree.airspace.goals[goalIndex]
      requires forall k | 0 <= k < |connected| :: connected[k] < goalIndex
      modifies this`flightPath, this`connected, this`visits, this`distance
      modifies tree`treeSize, tree`currentHead
      ensures Valid() && tree.View() == old(tree.View()) && tree.currentHead == goalNode
      ensures connected == old(connected) + [goalIndex] && visits == old(visits) + [|flightPath|]
      ensures flightPath == old(flightPath) + leg && distance == old(distance) + length
    {
      hide tree.Valid, tree.WellFormed, tree.View, Way, Complete, Above, Rooted, GoalsReached, Track;
      ghost var was := flightPath;
      distance := distance + length;
      flightPath := flightPath + leg;
      tree.SetCurrentHead(goalNode);
      connected := connected + [goalIndex];
      visits := visits + [|flightPath|];
      assert flightPath[..|flightPath|] == flightPath && flightPath[|was|..|flightPath|] == leg;
      NextReached(was, flightPath, old(connected), old(visits), goalIndex);
    }

    /** A goal that was reached stays reached when the flight goes on to the next. */
    lemma NextReached(was: seq<XYZCoord>, path: seq<XYZCoord>, goals: seq<nat>, at: seq<nat>, goal: nat)
      requires was <= path && GoalsReached(was, goals, at) && GoalReached(path, goal, End(at), |path|)
      ensures GoalsReached(path, goals + [goal], at + [|path|])
    {
      hide Climbs;
      var more := at + [|path|];
      forall k | 0 <= k < |goals|
        ensures GoalReached(path, goals[k], End(more[..k]), at[k])
      {
        assert more[..k] == at[..k];
        assert GoalReached(was, goals[k], End(at[..k]), at[k]);
        assert path[..at[k]] == was[..at[k]];
        assert path[End(at[..k])..at[k]] == was[End(at[..k])..at[k]];
      }
      assert more[..|goals|] == at;
    }

    /** `point` is a later point of the edge into `n`, a node between the root and the current head,
        and the edge is a curve that was offered and passed the path check. */
    ghost predicate OnEdge(point: XYZCoord, n: RRTNode, i: nat)
      reads tree, tree.Nodes(), n
    {
      && Rooted(tree.forest) && tree.currentHead in tree.Nodes()
      && n in tree.forest.parent && Above(tree.forest, n, tree.currentHead)
      && 1 <= i < |n.path| && Ground(n.path[i]) == Ground(point)
      && Flyable(tree.dubins, tree.airspace, tree.forest.parent[n].point, n.point, Edge(n.pathLength, n.path))
    }

    /** Every point of the flight path lies on an edge of the tree on the way to the current head. */
    ghost predicate AllOnEdges()
      reads this, tree, tree.Nodes(), tree.forest.parent.Keys
    {
      forall k | 0 <= k < |flightPath| :: OnSomeEdge(flightPath[k])
    }

    ghost predicate OnSomeEdge(point: XYZCoord)
      reads tree, tree.Nodes(), tree.forest.parent.Keys
    {
      exists n: RRTNode, i: nat :: n in tree.forest.parent && OnEdge(point, n, i)
    }

    /** However often the tree was rewired meanwhile, all that is flown is still there and was checked. */
    lemma FlightChecked()
      requires Valid()
      ensures tree.Valid() && OnTrack() && AllOnEdges() && GoalsReached(flightPath, connected, visits)
    {
      hide OnTrack, GoalsReached, OnSomeEdge, tree.Valid;
      forall k | 0 <= k < |flightPath|
        ensures OnSomeEdge(flightPath[k])
      {
        PointChecked(k);
      }
    }

    lemma PointChecked(k: nat)
      requires Valid() && k < |flightPath|
      ensures OnSomeEdge(flightPath[k])
    {
      hide Rooted, Above, Way, Flyable, GoalsReached, Below;
      var s := tree.View();
      RootAbove(s.forest, tree.currentHead);
      var way := Way(s, tree.root, tree.currentHead);
      assert |way| == |Track(way)| == |Track(flightPath)| == |flightPath|;
      assert Track(way)[k] == Track(flightPath)[k];
      var n, i := WayFrom(s, tree.root, tree.currentHead, k);
      assert s.edge[n] == Edge(n.pathLength, n.path);
      assert OnEdge(flightPath[k], n, i);
    }

    /** Connects the goal by the first choice that stays in bounds, if there is one. */
    method ConnectToGoal(goalIndex: nat, totalOptions: nat) returns (ok: bool, ghost a: Attempt)
      requires Valid() && goalIndex < |tree.airspace.goals|
      requires forall k | 0 <= k < |connected| :: connected[k] < goalIndex
      modifies this`flightPath, this`connected, this`visits, this`distance
      modifies tree`forest, tree`treeSize, tree`currentHead, tree.Nodes()`reachable
      ensures Valid() && fresh(tree.Nodes() - old(tree.Nodes())) && old(tree.Nodes()) <= tree.Nodes()
      ensures Attempted(old(tree.View()), old(tree.currentHead), tree.airspace.goals[goalIndex],
                        RoomEach(totalOptions), a)
      ensures tree.View() == a.after && (ok <==> a.goalNode != null)
      ensures Ended(goalIndex, a, old(tree.currentHead), old(connected), old(flightPath))
    {
      hide tree.Valid, tree.WellFormed, Rooted, Above, Below, Chain, ChainIn, Complete, Flown, TotalLength, GoalOption;
      hide tree.Fits, InGoalOrder, Way, tree.WayToHead, RoomEach, GoalChoices, NoneReaches, tree.View, WithLeaf;
      hide GoalsReached, OnTrack, AtHeights, LegStart, LegStep, ChoicePath;
      var goalNode, parent;
      ghost var lists, choices, chosen;
      goalNode, parent, lists, choices, chosen := SampleToGoal(goalIndex, totalOptions);
      if goalNode == null {
        return false, Attempt(lists, choices, null, 0, tree.View());
      }
      NotYetThere(goalNode, parent);
      ghost var chain := AddNodeToTree(goalNode, parent, goalIndex);
      return true, Attempt(lists, choices, goalNode, chosen, tree.View());
    }

    lemma NotYetThere(goalNode: RRTNode, parent: RRTNode)
      requires tree.Fits(parent, goalNode)
      ensures Complete(tree.View()) && tree.forest == tree.View().forest
      ensures parent in tree.forest.kids && goalNode !in tree.forest.kids
    {
    }

    /** Where the planner stands after an attempt: at the goal if it was connected, and else where it was. */
    ghost predicate Ended(goalIndex: nat, a: Attempt, head: RRTNode, before: seq<nat>, path: seq<XYZCoord>)
      reads this`flightPath, this`connected, tree`currentHead
    {
      if a.goalNode == null then tree.currentHead == head && connected == before && flightPath == path
      else tree.currentHead == a.goalNode && connected == before + [goalIndex] && path <= flightPath
    }

    // ----- growing the tree

    /** What a random sample does to the tree `s`: nothing if none of the options considered stays in bounds.
        Otherwise the first that does becomes a leaf, and if so configured, a whole pass is made through it,
        after which no node looked at within reach could gain from it any more. */
    ghost predicate Grows(s: Snapshot<RRTNode>, head: RRTNode, g: Growth) {
      && tree.Considered(s, head, g.sample, config.pointFetchMethod, MAX_DUBINS_OPTIONS_TO_PARSE, g.options, g.asked)
      && if g.newNode == null then g.grown == s && NoneFlies(g.options, |g.options|, g.sample) && g.after == g.grown
         else
           && g.chosen < |g.options| && NoneFlies(g.options, g.chosen, g.sample)
           && HungBy(s, (g.sample, g.options[g.chosen]), g.newNode, g.grown)
           && if config.optimize then tree.Optimized(g.grown, head, g.newNode, Squared(config.rewireRadius), g.after)
              else g.after == g.grown
    }

    /** The tree after some samples. */
    ghost function AfterAll(s: Snapshot<RRTNode>, growths: seq<Growth>): Snapshot<RRTNode> {
      if growths == [] then s else growths[|growths| - 1].after
    }

    ghost predicate AllGrow(s: Snapshot<RRTNode>, head: RRTNode, growths: seq<Growth>) {
      forall i | 0 <= i < |growths| :: Grows(AfterAll(s, growths[..i]), head, growths[i])
    }

    lemma OneMoreGrowth(s: Snapshot<RRTNode>, head: RRTNode, growths: seq<Growth>, g: Growth)
      requires AllGrow(s, head, growths) && Grows(AfterAll(s, growths), head, g)
      ensures AllGrow(s, head, growths + [g]) && AfterAll(s, growths + [g]) == g.after
    {
      hide Grows;
      var more := growths + [g];
      forall i | 0 <= i < |more|
        ensures Grows(AfterAll(s, more[..i]), head, more[i])
      {
        assert more[..i] == growths[..i];
      }
      assert growths[..|growths|] == growths;
    }

    /** One random sample: a node is grown towards it and, if so configured, the tree is rewired
        through that node. */
    method SampleOnce(sample: RRTPoint) returns (ghost g: Growth)
      requires Valid()
      modifies tree`forest, tree`treeSize, tree.Nodes()
      ensures Valid() && fresh(tree.Nodes() - old(tree.Nodes())) && old(tree.Nodes()) <= tree.Nodes()
      ensures forall n | n in old(tree.Nodes()) :: n.cost <= old(n.cost)
      ensures g.sample == sample && Grows(old(tree.View()), tree.currentHead, g) && tree.View() == g.after
    {
      hide tree.Valid, tree.WellFormed, Rooted, Above, Below, tree.Offered, InGoalOrder, tree.Considered;
      hide WithLeaf, Complete, NoneFlies, tree.View, RRTTree.AllFinite, HungBy, tree.Optimized;
      hide tree.WayToHead, Track, GoalsReached, DistanceToSquared;
      ValidTree();
      var options, asked := tree.PathingOptions(sample, config.pointFetchMethod, MAX_DUBINS_OPTIONS_TO_PARSE);
      ConsideredFits(sample, options, asked);
      var newNode, chosen := ParseOptions(options, sample);
      ghost var grown := tree.View();
      if newNode != null && config.optimize {
        OptimizeTree(newNode);
      }
      g := Growth(sample, options, asked, newNode, chosen, grown, tree.View());
    }

    lemma ConsideredFits(sample: RRTPoint, options: seq<(RRTNode, RRTOption)>, asked: set<RRTNode>)
      requires tree.Valid() && tree.Considered(tree.View(), tree.currentHead, sample, config.pointFetchMethod,
                                               MAX_DUBINS_OPTIONS_TO_PARSE, options, asked)
      ensures tree.AllFinite(options) && Complete(tree.View())
      ensures forall p | p in options ::
                p.0 in Below(tree.forest, tree.currentHead) && tree.Offered(p.0, p.1, sample) &&
                p.0 in tree.View().forest.kids
    {
      hide tree.Nearest;
      tree.AskedWithin(asked, Below(tree.forest, tree.currentHead), sample, config.pointFetchMethod);
    }

    /** Connects the goal if it can; when goals must not be skipped, it tries once more with all the
        options there are, and says whether that failed too. */
    method TryToConnect(goalIndex: nat) returns (result: bool, again: bool, ghost r: Round)
      requires Valid() && goalIndex < |tree.airspace.goals|
      requires forall k | 0 <= k < |connected| :: connected[k] < goalIndex
      modifies this`flightPath, this`connected, this`visits, this`distance
      modifies tree`forest, tree`treeSize, tree`currentHead, tree.Nodes()`reachable
      ensures Valid() && fresh(tree.Nodes() - old(tree.Nodes())) && old(tree.Nodes()) <= tree.Nodes()
      ensures r.growths == [] && Tried(old(tree.View()), old(tree.currentHead), tree.airspace.goals[goalIndex], r)
      ensures tree.View() == r.Last().after
      ensures Ended(goalIndex, r.Last(), old(tree.currentHead), old(connected), old(flightPath))
      ensures result <==> r.first.goalNode != null
      ensures again <==> r.Last().goalNode == null && !config.allowedToSkipWaypoints
      ensures again ==> !result
    {
      hide tree.Valid, tree.WellFormed, Valid, tree.View, Attempted, RoomEach;
      ValidAngles();
      var ok;
      ghost var first;
      ok, first := ConnectToGoal(goalIndex, TOTAL_OPTIONS_FOR_GOAL_CONNECTION);
      r := Round([], first, None);
      if ok {
        return true, false, r;
      }
      AttemptChangedNothing(old(tree.View()), old(tree.currentHead), goalIndex,
                            RoomEach(TOTAL_OPTIONS_FOR_GOAL_CONNECTION), first);
      if config.allowedToSkipWaypoints {
        return false, false, r;
      }
      var connectedNow;
      ghost var second;
      connectedNow, second := ConnectToGoal(goalIndex, INT_MAX);
      return false, !connectedNow, Round([], first, Some(second));
    }

    lemma ValidAngles()
      requires Valid()
      ensures |angles| > 0
    {
    }

    lemma AttemptChangedNothing(s: Snapshot<RRTNode>, head: RRTNode, goalIndex: nat, each: nat, a: Attempt)
      requires goalIndex < |tree.airspace.goals| && Attempted(s, head, tree.airspace.goals[goalIndex], each, a)
      ensures a.goalNode == null ==> a.after == s
    {
    }

    /** The attempts after the samples: one, and a second one with all options if that failed and goals must
        not be skipped. */
    ghost predicate Tried(s: Snapshot<RRTNode>, head: RRTNode, goal: XYZCoord, r: Round) {
      && |angles| > 0
      && Attempted(s, head, goal, RoomEach(TOTAL_OPTIONS_FOR_GOAL_CONNECTION), r.first)
      && (r.second.Some? <==> r.first.goalNode == null && !config.allowedToSkipWaypoints)
      && (r.second.Some? ==> Attempted(s, head, goal, RoomEach(INT_MAX), r.second.value))
    }

    /** A round makes so many samples and then tries to connect the goal. */
    ghost predicate RoundMade(s: Snapshot<RRTNode>, head: RRTNode, goal: XYZCoord, tries: int, r: Round) {
      && AllGrow(s, head, r.growths) && |r.growths| == (if tries < 0 then 0 else tries)
      && Tried(AfterAll(s, r.growths), head, goal, r)
    }

    /** Another round follows exactly when the goal was not connected although it must not be skipped. */
    ghost predicate RoundsMade(s: Snapshot<RRTNode>, head: RRTNode, goal: XYZCoord, tries: int, rounds: seq<Round>)
      decreases |rounds|
    {
      && rounds != [] && RoundMade(s, head, goal, tries, rounds[0])
      && (|rounds| > 1 ==>
            && rounds[0].Last().goalNode == null && !config.allowedToSkipWaypoints
            && RoundsMade(rounds[0].Last().after, head, goal, tries, rounds[1..]))
    }

    ghost function LastOf(rounds: seq<Round>): Round
      requires rounds != []
    {
      rounds[|rounds| - 1]
    }

    lemma MoreRounds(s: Snapshot<RRTNode>, head: RRTNode, goal: XYZCoord, tries: int, r: Round, more: seq<Round>)
      requires RoundMade(s, head, goal, tries, r) && r.Last().goalNode == null && !config.allowedToSkipWaypoints
      requires RoundsMade(r.Last().after, head, goal, tries, more)
      ensures RoundsMade(s, head, goal, tries, [r] + more) && more != [] && LastOf([r] + more) == LastOf(more)
    {
      hide RoundMade;
      assert ([r] + more)[1..] == more;
    }

    lemma OneRound(s: Snapshot<RRTNode>, head: RRTNode, goal: XYZCoord, tries: int, r: Round)
      requires RoundMade(s, head, goal, tries, r)
      ensures RoundsMade(s, head, goal, tries, [r]) && LastOf([r]) == r
    {
      hide RoundMade;
    }

    /** The loop over the samples. */
    method GrowTree(tries: int) returns (ghost growths: seq<Growth>)
      requires Valid()
      modifies tree`forest, tree`treeSize, tree.Nodes()
      ensures Valid() && fresh(tree.Nodes() - old(tree.Nodes())) && old(tree.Nodes()) <= tree.Nodes()
      ensures forall n | n in old(tree.Nodes()) :: n.cost <= old(n.cost)
      ensures AllGrow(old(tree.View()), tree.currentHead, growths) && |growths| == (if tries < 0 then 0 else tries)
      ensures tree.View() == AfterAll(old(tree.View()), growths)
    {
      hide tree.Valid, tree.WellFormed, Valid, tree.View, AllGrow, AfterAll, Grows;
      ghost var start, s := tree.Nodes(), tree.View();
      growths := [];
      NothingGrown(s, tree.currentHead);
      var i := 0;
      while i < tries
        invariant 0 <= i && (i <= tries || i == 0) && |growths| == i
        invariant AllGrow(s, tree.currentHead, growths) && tree.View() == AfterAll(s, growths)
        invariant Valid() && fresh(tree.Nodes() - start) && start <= tree.Nodes()
        invariant forall n | n in start :: n.cost <= old(n.cost)
      {
        var sample: RRTPoint := *;
        ghost var g := SampleOnce(sample);
        OneMoreGrowth(s, tree.currentHead, growths, g);
        growths := growths + [g];
        i := i + 1;
      }
    }

    /** Grows the tree by `tries` samples and connects the goal, starting over up to `rounds` times
        if goals must not be skipped. Reports whether it stopped for lack of rounds. */
    method RRTIteration(tries: int, goalIndex: nat, rounds: nat)
      returns (result: bool, exhausted: bool, ghost made: seq<Round>)
      requires Valid() && goalIndex < |tree.airspace.goals|
      requires forall k | 0 <= k < |connected| :: connected[k] < goalIndex
      modifies this`flightPath, this`connected, this`visits, this`distance
      modifies tree`forest, tree`treeSize, tree`currentHead, tree.Nodes()
      ensures Valid() && fresh(tree.Nodes() - old(tree.Nodes())) && old(tree.Nodes()) <= tree.Nodes()
      ensures forall n | n in old(tree.Nodes()) :: n.cost <= old(n.cost)
      ensures RoundsMade(old(tree.View()), old(tree.currentHead), tree.airspace.goals[goalIndex], tries, made)
      ensures tree.View() == LastOf(made).Last().after
      ensures Ended(goalIndex, LastOf(made).Last(), old(tree.currentHead), old(connected), old(flightPath))
      ensures result <==> LastOf(made).first.goalNode != null
      ensures exhausted <==> LastOf(made).Last().goalNode == null && !config.allowedToSkipWaypoints
      ensures |made| <= rounds + 1 && (exhausted ==> |made| == rounds + 1)
      decreases rounds
    {
      hide tree.Valid, tree.WellFormed, Valid, tree.View, RRT.InGoalOrder, Tried, AllGrow, AfterAll, RoundsMade;
      hide LastOf;
      ghost var start, s, head := tree.Nodes(), tree.View(), tree.currentHead;
      ghost var goal := tree.airspace.goals[goalIndex];
      ghost var growths := GrowTree(tries);
      var again;
      ghost var r;
      result, again, r := TryToConnect(goalIndex);
      ghost var grown, round := tree.Nodes(), Round(growths, r.first, r.second);
      SameTries(AfterAll(s, growths), head, goal, r, round);
      OneRound(s, head, goal, tries, round);
      made := [round];
      exhausted := again;
      if again && rounds > 0 {
        ghost var more;
        result, exhausted, more := RRTIteration(tries, goalIndex, rounds - 1);
        MoreRounds(s, head, goal, tries, round, more);
        made := [round] + more;
        assert tree.Nodes() - start == (tree.Nodes() - grown) + (grown - start);
      }
    }

    lemma NothingGrown(s: Snapshot<RRTNode>, head: RRTNode)
      ensures AllGrow(s, head, []) && AfterAll(s, []) == s
    {
    }

    lemma SameTries(s: Snapshot<RRTNode>, head: RRTNode, goal: XYZCoord, r: Round, r': Round)
      requires Tried(s, head, goal, r) && r'.first == r.first && r'.second == r.second
      ensures Tried(s, head, goal, r') && r'.Last() == r.Last()
    {
      hide Attempted;
    }

    /** One turn of the planner's loop: an attempt straight away, and rounds of samples only if it failed. */
    ghost predicate TurnMade(s: Snapshot<RRTNode>, head: RRTNode, goalIndex: nat, turn: Turn) {
      && |angles| > 0 && goalIndex < |tree.airspace.goals|
      && var goal := tree.airspace.goals[goalIndex];
         && Attempted(s, head, goal, RoomEach(TOTAL_OPTIONS_FOR_GOAL_CONNECTION), turn.direct)
         && if turn.direct.goalNode != null then turn.rounds == []
            else RoundsMade(s, head, goal, config.iterationsPerWaypoint, turn.rounds)
    }

    /** Connects the goal straight away if it can, and otherwise grows the tree first. */
    method ReachGoal(goalIndex: nat, rounds: nat) returns (exhausted: bool, ghost turn: Turn)
      requires Valid() && goalIndex < |tree.airspace.goals|
      requires forall k | 0 <= k < |connected| :: connected[k] < goalIndex
      modifies this`flightPath, this`connected, this`visits, this`distance
      modifies tree`forest, tree`treeSize, tree`currentHead, tree.Nodes()
      ensures Valid() && fresh(tree.Nodes() - old(tree.Nodes())) && old(tree.Nodes()) <= tree.Nodes()
      ensures forall n | n in old(tree.Nodes()) :: n.cost <= old(n.cost)
      ensures TurnMade(old(tree.View()), old(tree.currentHead), goalIndex, turn) && tree.View() == turn.Last().after
      ensures Ended(goalIndex, turn.Last(), old(tree.currentHead), old(connected), old(flightPath))
      ensures exhausted <==> turn.Last().goalNode == null && !config.allowedToSkipWaypoints
    {
      hide tree.Valid, tree.WellFormed, Valid, tree.View, RoomEach, Attempted, RoundsMade;
      ValidAngles();
      var ok;
      ghost var direct;
      ok, direct := ConnectToGoal(goalIndex, TOTAL_OPTIONS_FOR_GOAL_CONNECTION);
      if ok {
        return false, Turn(direct, []);
      }
      AttemptChangedNothing(old(tree.View()), old(tree.currentHead), goalIndex,
                            RoomEach(TOTAL_OPTIONS_FOR_GOAL_CONNECTION), direct);
      var result;
      ghost var made;
      result, exhausted, made := RRTIteration(config.iterationsPerWaypoint, goalIndex, rounds);
      SomeRound(old(tree.View()), old(tree.currentHead), tree.airspace.goals[goalIndex], made);
      turn := Turn(direct, made);
    }

    lemma SomeRound(s: Snapshot<RRTNode>, head: RRTNode, goal: XYZCoord, rounds: seq<Round>)
      requires RoundsMade(s, head, goal, config.iterationsPerWaypoint, rounds)
      ensures rounds != []
    {
    }

    // ----- the whole run

    /** Where the planner is after some turns: the tree, its head, and the goals connected. */
    ghost function TreeAfter(s: Snapshot<RRTNode>, turns: seq<Turn>): Snapshot<RRTNode> {
      if turns == [] then s else turns[|turns| - 1].Last().after
    }

    ghost function HeadAfter(head: RRTNode, turns: seq<Turn>): RRTNode {
      if turns == [] then head
      else
        var last := turns[|turns| - 1].Last().goalNode;
        if last == null then HeadAfter(head, turns[..|turns| - 1]) else last
    }

    ghost function ConnectedIn(turns: seq<Turn>): seq<nat> {
      if turns == [] then []
      else
        var k := |turns| - 1;
        ConnectedIn(turns[..k]) + (if turns[k].Last().goalNode == null then [] else [k])
    }

    /** One turn for each goal, in order. */
    ghost predicate TurnsMade(s: Snapshot<RRTNode>, head: RRTNode, turns: seq<Turn>) {
      forall k | 0 <= k < |turns| :: TurnMade(TreeAfter(s, turns[..k]), HeadAfter(head, turns[..k]), k, turns[k])
    }

    lemma NoTurns(s: Snapshot<RRTNode>, head: RRTNode)
      ensures TurnsMade(s, head, []) && TreeAfter(s, []) == s && HeadAfter(head, []) == head && ConnectedIn([]) == []
    {
    }

    lemma OneMoreTurn(s: Snapshot<RRTNode>, head: RRTNode, turns: seq<Turn>, turn: Turn)
      requires TurnsMade(s, head, turns)
      requires TurnMade(TreeAfter(s, turns), HeadAfter(head, turns), |turns|, turn)
      ensures TurnsMade(s, head, turns + [turn]) && TreeAfter(s, turns + [turn]) == turn.Last().after
      ensures var n := turn.Last().goalNode;
              && HeadAfter(head, turns + [turn]) == (if n == null then HeadAfter(head, turns) else n)
              && ConnectedIn(turns + [turn]) == ConnectedIn(turns) + (if n == null then [] else [|turns|])
    {
      hide TurnMade, TreeAfter;
      var more := turns + [turn];
      forall k | 0 <= k < |more|
        ensures TurnMade(TreeAfter(s, more[..k]), HeadAfter(head, more[..k]), k, more[k])
      {
        assert more[..k] == turns[..k];
      }
      assert more[..|turns|] == turns && turns[..|turns|] == turns;
      LastTree(s, turns, turn);
    }

    lemma LastTree(s: Snapshot<RRTNode>, turns: seq<Turn>, turn: Turn)
      ensures TreeAfter(s, turns + [turn]) == turn.Last().after
    {
    }

    ghost function Upto(n: nat): (r: seq<nat>)
      ensures |r| == n
    {
      seq(n, i => i)
    }

    lemma UptoNext(n: nat)
      ensures Upto(n + 1) == Upto(n) + [n]
    {
    }

    /** Plans the whole flight, goal after goal; stops when it runs out of rounds. */
    method Run(rounds: nat) returns (exhausted: bool, ghost turns: seq<Turn>)
      requires Valid() && connected == []
      modifies this`flightPath, this`connected, this`visits, this`distance
      modifies tree`forest, tree`treeSize, tree`currentHead, tree.Nodes()
      ensures Valid() && old(tree.Nodes()) <= tree.Nodes()
      ensures OnTrack() && AllOnEdges() && GoalsReached(flightPath, connected, visits)
      ensures forall n | n in old(tree.Nodes()) :: n.cost <= old(n.cost)
      ensures TurnsMade(old(tree.View()), old(tree.currentHead), turns) && |turns| <= |tree.airspace.goals|
      ensures tree.View() == TreeAfter(old(tree.View()), turns) && connected == ConnectedIn(turns)
      ensures tree.currentHead == HeadAfter(old(tree.currentHead), turns)
      ensures !exhausted ==> |turns| == |tree.airspace.goals|
      ensures !config.allowedToSkipWaypoints && !exhausted ==> connected == Upto(|tree.airspace.goals|)
      ensures exhausted ==> turns != [] && turns[|turns| - 1].Last().goalNode == null && !config.allowedToSkipWaypoints
    {
      hide tree.Valid, tree.WellFormed, Valid, tree.View, Upto, AllOnEdges, OnTrack, GoalsReached;
      hide TurnMade, TurnsMade, TreeAfter, HeadAfter, ConnectedIn;
      ghost var s, head := tree.View(), tree.currentHead;
      exhausted, turns := false, [];
      NoTurns(s, head);
      for goalIndex := 0 to |tree.airspace.goals|
        invariant !exhausted && |turns| == goalIndex
        invariant Valid() && fresh(tree.Nodes() - old(tree.Nodes())) && old(tree.Nodes()) <= tree.Nodes()
        invariant forall n | n in old(tree.Nodes()) :: n.cost <= old(n.cost)
        invariant forall k | 0 <= k < |connected| :: connected[k] < goalIndex
        invariant TurnsMade(s, head, turns) && tree.View() == TreeAfter(s, turns)
        invariant tree.currentHead == HeadAfter(head, turns) && connected == ConnectedIn(turns)
        invariant !config.allowedToSkipWaypoints ==> connected == Upto(goalIndex)
      {
        ghost var turn;
        exhausted, turn := ReachGoal(goalIndex, rounds);
        OneMoreTurn(s, head, turns, turn);
        turns := turns + [turn];
        UptoNext(goalIndex);
        if exhausted {
          break;
        }
      }
      FlightChecked();
    }
  }
}
