/** Rooted trees given by child lists, with a parent map and a depth map as witnesses.
    Everything here is about values: the search tree in RrtTree.dfy reads its child lists
    off the heap and keeps the two witness maps as ghost state. */
module Forests {

  datatype Forest<N> = Forest(root: N, kids: map<N, seq<N>>, parent: map<N, N>, depth: map<N, nat>)

  ghost predicate NoDuplicates<N>(s: seq<N>) {
    forall i, j | 0 <= i < j < |s| :: s[i] != s[j]
  }

  ghost predicate Shaped<N>(f: Forest<N>) {
    && f.root in f.kids
    && f.depth.Keys == f.kids.Keys
    && f.parent.Keys == f.kids.Keys - {f.root}
  }

  /** `n`'s parent lists `n`, one level up. */
  ghost predicate ParentLink<N>(f: Forest<N>, n: N)
    requires Shaped(f) && n in f.parent
  {
    && f.parent[n] in f.kids
    && n in f.kids[f.parent[n]]
    && f.depth[n] == f.depth[f.parent[n]] + 1
  }

  /** Every entry of `p`'s list has `p` as its parent, and no entry is repeated. */
  ghost predicate KidLinks<N>(f: Forest<N>, p: N)
    requires Shaped(f) && p in f.kids
  {
    && NoDuplicates(f.kids[p])
    && forall c | c in f.kids[p] :: c in f.parent && f.parent[c] == p
  }

  /** The child lists form one tree: no cycle, and each node except the root is in exactly one
      list, exactly once. */
  ghost predicate Rooted<N>(f: Forest<N>) {
    && Shaped(f)
    && f.depth[f.root] == 0
    && (forall n | n in f.parent :: ParentLink(f, n))
    && (forall p | p in f.kids :: KidLinks(f, p))
  }

  /** `a` is `n` or one of its ancestors. */
  ghost predicate Above<N>(f: Forest<N>, a: N, n: N)
    requires Rooted(f) && n in f.kids
    decreases f.depth[n]
  {
    n == a || (n != f.root && (assert ParentLink(f, n); Above(f, a, f.parent[n])))
  }

  /** The nodes of the subtree hanging at `a`, `a` included. */
  ghost function Below<N>(f: Forest<N>, a: N): set<N>
    requires Rooted(f)
  {
    set n | n in f.kids && Above(f, a, n)
  }

  lemma {:induction false} AboveDepth<N>(f: Forest<N>, a: N, n: N)
    requires Rooted(f) && n in f.kids && Above(f, a, n)
    ensures a in f.kids && f.depth[a] <= f.depth[n]
    ensures f.depth[a] == f.depth[n] ==> a == n
    decreases f.depth[n]
  {
    if n != a {
      assert ParentLink(f, n);
      AboveDepth(f, a, f.parent[n]);
    }
  }

  /** Every node is in the subtree of the root. */
  lemma {:induction false} RootAbove<N>(f: Forest<N>, n: N)
    requires Rooted(f) && n in f.kids
    ensures Above(f, f.root, n)
    decreases f.depth[n]
  {
    if n != f.root {
      assert ParentLink(f, n);
      RootAbove(f, f.parent[n]);
    }
  }

  lemma {:induction false} AboveTransitive<N>(f: Forest<N>, a: N, b: N, n: N)
    requires Rooted(f) && n in f.kids && b in f.kids && Above(f, a, b) && Above(f, b, n)
    ensures Above(f, a, n)
    decreases f.depth[n]
  {
    if n != b {
      assert ParentLink(f, n);
      AboveTransitive(f, a, b, f.parent[n]);
    }
  }

  /** Two ancestors of one node are themselves related. */
  lemma {:induction false} AboveLinear<N>(f: Forest<N>, a: N, b: N, n: N)
    requires Rooted(f) && n in f.kids && Above(f, a, n) && Above(f, b, n)
    ensures a in f.kids && b in f.kids
    ensures Above(f, a, b) || Above(f, b, a)
    decreases f.depth[n]
  {
    AboveDepth(f, a, n);
    AboveDepth(f, b, n);
    if n != a && n != b {
      assert ParentLink(f, n);
      AboveLinear(f, a, b, f.parent[n]);
    }
  }

  /** Subtrees of two different children of one node share nothing. */
  lemma SiblingsDisjoint<N>(f: Forest<N>, c: N, d: N, n: N)
    requires Rooted(f) && c in f.parent && d in f.parent && f.parent[c] == f.parent[d] && c != d
    requires n in f.kids && Above(f, c, n)
    ensures !Above(f, d, n)
  {
    assert ParentLink(f, c) && ParentLink(f, d);
    if Above(f, d, n) {
      AboveLinear(f, c, d, n);
      if Above(f, c, d) { AboveDepth(f, c, d); } else { AboveDepth(f, d, c); }
    }
  }

  /** A node strictly below `a` is below exactly one child of `a`; this finds it. */
  lemma {:induction false} ChildTowards<N>(f: Forest<N>, a: N, n: N) returns (c: N)
    requires Rooted(f) && n in f.kids && Above(f, a, n) && n != a
    ensures c in f.parent && f.parent[c] == a && a in f.kids && c in f.kids[a] && Above(f, c, n)
    decreases f.depth[n]
  {
    assert ParentLink(f, n);
    if f.parent[n] == a {
      c := n;
    } else {
      c := ChildTowards(f, a, f.parent[n]);
    }
  }

  ghost function Ancestors<N>(f: Forest<N>, n: N): set<N>
    requires Rooted(f)
  {
    set a | a in f.kids && n in f.kids && Above(f, a, n)
  }

  lemma {:induction false} AncestorCount<N>(f: Forest<N>, n: N)
    requires Rooted(f) && n in f.kids
    ensures |Ancestors(f, n)| == f.depth[n] + 1
    decreases f.depth[n]
  {
    if n == f.root {
      assert Ancestors(f, n) == {n};
    } else {
      assert ParentLink(f, n);
      var p := f.parent[n];
      AncestorCount(f, p);
      if Above(f, n, p) { AboveDepth(f, n, p); }
      assert Ancestors(f, n) == Ancestors(f, p) + {n};
    }
  }

  lemma SubsetSize<N>(a: set<N>, b: set<N>)
    requires a <= b
    ensures |a| <= |b|
  {
    assert |a + (b - a)| == |a| + |b - a|;
    assert a + (b - a) == b;
  }

  /** A path is shorter than the tree is large: the bound that makes the recursive walks stop. */
  lemma DepthBound<N>(f: Forest<N>, n: N)
    requires Rooted(f) && n in f.kids
    ensures f.depth[n] < |f.kids|
  {
    AncestorCount(f, n);
    SubsetSize(Ancestors(f, n), f.kids.Keys);
  }

  // ----- moving one subtree

  function Without<N(==)>(s: seq<N>, gone: set<N>): seq<N> {
    if s == [] then []
    else (if s[0] in gone then [] else [s[0]]) + Without(s[1..], gone)
  }

  lemma {:induction false} WithoutMembers<N>(s: seq<N>, gone: set<N>)
    ensures forall x :: x in Without(s, gone) <==> x in s && x !in gone
    ensures NoDuplicates(s) ==> NoDuplicates(Without(s, gone))
    ensures |Without(s, gone)| <= |s|
  {
    if s != [] {
      WithoutMembers(s[1..], gone);
      if NoDuplicates(s) {
        assert forall x | x in s[1..] :: x != s[0];
      }
    }
  }

  lemma WithoutIsPart<N>(s: seq<N>, gone: set<N>)
    ensures forall x | x in Without(s, gone) :: x in s
  {
    WithoutMembers(s, gone);
  }

  lemma {:induction false} WithoutNothing<N>(s: seq<N>, gone: set<N>)
    requires forall x | x in s :: x !in gone
    ensures Without(s, gone) == s
  {
    if s != [] { WithoutNothing(s[1..], gone); }
  }

  lemma {:induction false} WithoutAgree<N>(s: seq<N>, a: set<N>, b: set<N>)
    requires forall x | x in s :: x in a <==> x in b
    ensures Without(s, a) == Without(s, b)
  {
    if s != [] { WithoutAgree(s[1..], a, b); }
  }

  lemma {:induction false} WithoutTwice<N>(s: seq<N>, a: set<N>, b: set<N>)
    ensures Without(Without(s, a), b) == Without(s, a + b)
  {
    if s != [] {
      WithoutTwice(s[1..], a, b);
      var rest := Without(s[1..], a);
      if s[0] !in a {
        assert Without(s, a)[1..] == rest;
      } else {
        assert Without(s, a) == rest;
      }
    }
  }

  /** `c` leaves its parent's list and becomes the last child of `q`. */
  ghost function MovedKids<N>(f: Forest<N>, c: N, q: N): (kids: map<N, seq<N>>)
    requires Rooted(f) && c in f.parent && q in f.kids
  {
    assert ParentLink(f, c);
    var removed := f.kids[f.parent[c] := Without(f.kids[f.parent[c]], {c})];
    removed[q := removed[q] + [c]]
  }

  /** The depths after the move: the subtree at `c` shifts as one piece. */
  ghost function MovedDepth<N>(f: Forest<N>, c: N, q: N, n: N): (d: nat)
    requires Rooted(f) && c in f.parent && q in f.kids && n in f.kids
  {
    if Above(f, c, n) then AboveDepth(f, c, n); f.depth[n] - f.depth[c] + f.depth[q] + 1 else f.depth[n]
  }

  ghost function Reparented<N>(f: Forest<N>, c: N, q: N): Forest<N>
    requires Rooted(f) && c in f.parent && q in f.kids
  {
    Forest(f.root, MovedKids(f, c, q), f.parent[c := q], map n | n in f.kids :: MovedDepth(f, c, q, n))
  }

  lemma ReparentedParentLink<N>(f: Forest<N>, c: N, q: N, n: N)
    requires Rooted(f) && c in f.parent && q in f.kids && !Above(f, c, q) && n in f.parent
    requires Shaped(Reparented(f, c, q))
    ensures ParentLink(Reparented(f, c, q), n)
  {
    assert ParentLink(f, n) && ParentLink(f, c);
    WithoutMembers(f.kids[f.parent[c]], {c});
  }

  lemma ReparentedKidLinks<N>(f: Forest<N>, c: N, q: N, p: N)
    requires Rooted(f) && c in f.parent && q in f.kids && !Above(f, c, q) && p in f.kids
    requires Shaped(Reparented(f, c, q))
    ensures KidLinks(Reparented(f, c, q), p)
  {
    assert KidLinks(f, p) && ParentLink(f, c);
    var left := f.parent[c];
    WithoutMembers(f.kids[left], {c});
    var g := Reparented(f, c, q);
    var stay := if p == left then Without(f.kids[p], {c}) else f.kids[p];
    assert g.kids[p] == if p == q then stay + [c] else stay;
    assert NoDuplicates(stay) && c !in stay;
    forall x | x in g.kids[p]
      ensures x in g.parent && g.parent[x] == p
    {
      assert x in stay || (x == c && p == q);
      assert x in stay ==> x in f.kids[p];
    }
  }

  /** Moving a subtree keeps the tree a tree as long as the new parent is not inside it. */
  lemma ReparentedRooted<N>(f: Forest<N>, c: N, q: N)
    requires Rooted(f) && c in f.parent && q in f.kids && !Above(f, c, q)
    ensures Rooted(Reparented(f, c, q))
    ensures Reparented(f, c, q).kids.Keys == f.kids.Keys && Reparented(f, c, q).root == f.root
  {
    var g := Reparented(f, c, q);
    assert ParentLink(f, c);
    assert g.kids.Keys == f.kids.Keys;
    assert g.parent.Keys == f.parent.Keys;
    assert Shaped(g);
    forall n | n in g.parent
      ensures ParentLink(g, n)
    {
      ReparentedParentLink(f, c, q, n);
    }
    forall p | p in g.kids
      ensures KidLinks(g, p)
    {
      ReparentedKidLinks(f, c, q, p);
    }
    if Above(f, c, f.root) { AboveDepth(f, c, f.root); }
  }

  lemma {:induction false} ReparentedBelow<N>(f: Forest<N>, c: N, q: N, n: N)
    requires Rooted(f) && c in f.parent && q in f.kids && !Above(f, c, q) && n in f.kids
    requires Rooted(Reparented(f, c, q))
    ensures Above(Reparented(f, c, q), c, n) <==> Above(f, c, n)
    decreases f.depth[n]
  {
    if n != c && n != f.root {
      assert ParentLink(f, n);
      ReparentedBelow(f, c, q, f.parent[n]);
    }
  }

  // ----- hanging up one new leaf

  ghost function Grown<N>(f: Forest<N>, anchor: N, leaf: N): Forest<N>
    requires Rooted(f) && anchor in f.kids
  {
    Forest(f.root, f.kids[anchor := f.kids[anchor] + [leaf]][leaf := []], f.parent[leaf := anchor],
           f.depth[leaf := f.depth[anchor] + 1])
  }

  lemma GrownRooted<N>(f: Forest<N>, anchor: N, leaf: N)
    requires Rooted(f) && anchor in f.kids && leaf !in f.kids
    ensures Rooted(Grown(f, anchor, leaf))
  {
    var g := Grown(f, anchor, leaf);
    forall n | n in g.parent
      ensures ParentLink(g, n)
    {
      assert n != leaf ==> ParentLink(f, n);
    }
    forall p | p in g.kids
      ensures KidLinks(g, p)
    {
      if p != leaf {
        assert KidLinks(f, p);
        assert leaf !in f.kids[p];
      }
    }
  }

  lemma {:induction false} GrownBelow<N>(f: Forest<N>, anchor: N, leaf: N, a: N, n: N)
    requires Rooted(f) && anchor in f.kids && leaf !in f.kids && Rooted(Grown(f, anchor, leaf))
    requires n in f.kids && a in f.kids
    ensures Above(Grown(f, anchor, leaf), a, n) <==> Above(f, a, n)
    decreases f.depth[n]
  {
    if n != a && n != f.root {
      assert ParentLink(f, n);
      GrownBelow(f, anchor, leaf, a, f.parent[n]);
    }
  }

  lemma GrownCount<N>(f: Forest<N>, anchor: N, leaf: N, a: N)
    requires Rooted(f) && anchor in f.kids && leaf !in f.kids && a in f.kids && Above(f, a, anchor)
    ensures Rooted(Grown(f, anchor, leaf))
    ensures Below(Grown(f, anchor, leaf), a) == Below(f, a) + {leaf}
    ensures |Below(Grown(f, anchor, leaf), a)| == |Below(f, a)| + 1
  {
    GrownRooted(f, anchor, leaf);
    var g := Grown(f, anchor, leaf);
    assert ParentLink(g, leaf);
    forall n | n in f.kids
      ensures Above(g, a, n) <==> Above(f, a, n)
    {
      GrownBelow(f, anchor, leaf, a, n);
    }
    assert Below(g, a) == Below(f, a) + {leaf};
    assert leaf !in Below(f, a);
  }

  lemma LeafCount<N>(f: Forest<N>, leaf: N)
    requires Rooted(f) && leaf in f.kids && f.kids[leaf] == []
    ensures Below(f, leaf) == {leaf}
  {
    forall n | n in f.kids && Above(f, leaf, n)
      ensures n == leaf
    {
      if n != leaf { var c := ChildTowards(f, leaf, n); }
    }
    assert Above(f, leaf, leaf);
  }

  lemma AloneIfLeaf<N>(f: Forest<N>, n: N)
    requires Rooted(f) && n in f.kids
    ensures |Below(f, n)| == 1 <==> f.kids[n] == []
  {
    if f.kids[n] == [] {
      LeafCount(f, n);
    } else {
      var c := f.kids[n][0];
      assert KidLinks(f, n) && c in f.kids[n];
      assert ParentLink(f, c);
      assert Above(f, n, n) && Above(f, n, c);
      SubsetSize({n, c}, Below(f, n));
    }
  }

  // ----- the way down

  /** The nodes passed on the way from `a` down to `n`, `a` left out. */
  ghost function Chain<N>(f: Forest<N>, a: N, n: N): (chain: seq<N>)
    requires Rooted(f) && n in f.kids && Above(f, a, n)
    decreases f.depth[n]
  {
    if n == a then []
    else assert ParentLink(f, n); Chain(f, a, f.parent[n]) + [n]
  }

  lemma EmptyChain<N>(f: Forest<N>, n: N)
    requires Rooted(f) && n in f.kids
    ensures Above(f, n, n) && Chain(f, n, n) == []
  {
  }

  /** `path` goes from `a` to its last node, each node a child of the one before. */
  ghost predicate Descends<N>(f: Forest<N>, path: seq<N>)
    requires Rooted(f)
  {
    && (forall i | 0 <= i < |path| :: path[i] in f.kids)
    && forall i | 0 < i < |path| :: path[i] in f.parent && f.parent[path[i]] == path[i - 1]
  }

  /** There is only one way down: any descending path is the chain to its last node. */
  lemma {:induction false} DescentIsChain<N>(f: Forest<N>, path: seq<N>)
    requires Rooted(f) && |path| >= 1 && Descends(f, path)
    ensures Above(f, path[0], path[|path| - 1])
    ensures path[1..] == Chain(f, path[0], path[|path| - 1])
  {
    var last := path[|path| - 1];
    if |path| > 1 {
      var up := path[..|path| - 1];
      assert f.parent[last] == up[|up| - 1];
      DescentIsChain(f, up);
      assert ParentLink(f, last);
      AboveDepth(f, path[0], up[|up| - 1]);
      assert path[1..] == up[1..] + [last];
    }
  }
}
