/** The bookkeeping of a depth-first search with an explicit stack, over a rooted tree. */
module DepthFirst {
  import opened Forests

  /** A node and the index of the child to look at next. */
  type Frame<N> = (N, nat)

  /** The stack is a way down from `head`, each frame standing on the child its predecessor last
      handed out. */
  ghost predicate StackIsPath<N>(f: Forest<N>, head: N, stack: seq<Frame<N>>, path: seq<N>)
    requires Rooted(f)
  {
    && |stack| == |path|
    && (forall i | 0 <= i < |path| :: path[i] == stack[i].0)
    && (|path| > 0 ==> path[0] == head)
    && Descends(f, path)
    && (forall i | 0 <= i < |stack| :: stack[i].1 <= |f.kids[path[i]]|)
  }

  /** A node has been seen only if its parent has, and all of it is below `head`. */
  ghost predicate SeenFromAbove<N>(f: Forest<N>, head: N, seen: set<N>)
    requires Rooted(f)
  {
    && head in seen
    && seen <= f.kids.Keys
    && (forall n | n in seen :: Above(f, head, n))
    && (forall n | n in seen && n != head :: n in f.parent && f.parent[n] in seen)
  }

  /** Of a node on the stack exactly the children before its index have been seen. */
  ghost predicate FramesFit<N>(f: Forest<N>, stack: seq<Frame<N>>, path: seq<N>, seen: set<N>)
    requires |stack| == |path|
  {
    forall i | 0 <= i < |path| :: path[i] in seen && path[i] in f.kids && KidsSeen(f, path[i], stack[i].1, seen)
  }

  /** Of a node that has left the stack, all children have been seen. */
  ghost predicate LeftDone<N>(f: Forest<N>, path: seq<N>, seen: set<N>) {
    forall n | n in seen && n !in path :: n in f.kids && KidsSeen(f, n, |f.kids[n]|, seen)
  }

  ghost predicate KidsSeen<N>(f: Forest<N>, n: N, upTo: nat, seen: set<N>)
    requires n in f.kids
  {
    forall j | 0 <= j < |f.kids[n]| :: f.kids[n][j] in seen <==> j < upTo
  }

  ghost predicate Searching<N>(f: Forest<N>, head: N, target: N, stack: seq<Frame<N>>, path: seq<N>, seen: set<N>)
    requires Rooted(f)
  {
    && StackIsPath(f, head, stack, path)
    && SeenFromAbove(f, head, seen)
    && FramesFit(f, stack, path, seen)
    && LeftDone(f, path, seen)
    && (target in seen ==> |path| > 0 && path[|path| - 1] == target)
  }

  lemma {:induction false} DepthAlong<N>(f: Forest<N>, path: seq<N>, i: nat)
    requires Rooted(f) && Descends(f, path) && i < |path|
    ensures f.depth[path[i]] == f.depth[path[0]] + i
  {
    if i > 0 {
      assert ParentLink(f, path[i]);
      DepthAlong(f, path, i - 1);
    }
  }

  /** A way down passes no node twice. */
  lemma PathDistinct<N>(f: Forest<N>, path: seq<N>, i: nat, j: nat)
    requires Rooted(f) && Descends(f, path) && i < j < |path|
    ensures path[i] != path[j]
  {
    DepthAlong(f, path, i);
    DepthAlong(f, path, j);
  }

  lemma Start<N>(f: Forest<N>, head: N, target: N)
    requires Rooted(f) && head in f.kids
    ensures Searching(f, head, target, [(head, 0)], [head], {head})
  {
    assert Above(f, head, head);
    forall j | 0 <= j < |f.kids[head]|
      ensures f.kids[head][j] != head
    {
      ChildIsBelow(f, head, head, j);
    }
  }

  lemma ChildIsBelow<N>(f: Forest<N>, head: N, n: N, j: nat)
    requires Rooted(f) && n in f.kids && j < |f.kids[n]| && Above(f, head, n)
    ensures f.kids[n][j] in f.parent && f.parent[f.kids[n][j]] == n && f.kids[n][j] in f.kids
    ensures Above(f, head, f.kids[n][j]) && f.kids[n][j] != head
  {
    var c := f.kids[n][j];
    assert KidLinks(f, n) && c in f.kids[n];
    assert ParentLink(f, c);
    AboveDepth(f, head, n);
  }

  function Pushed<N>(stack: seq<Frame<N>>, c: N): (r: seq<Frame<N>>)
    requires |stack| > 0
    ensures |r| == |stack| + 1
  {
    var (n, i) := stack[|stack| - 1];
    stack[..|stack| - 1] + [(n, i + 1), (c, 0)]
  }

  /** `c` is the child the top frame hands out next. */
  ghost predicate NextUp<N>(f: Forest<N>, stack: seq<Frame<N>>, path: seq<N>, c: N)
    requires Rooted(f) && |stack| == |path|
  {
    && |path| > 0
    && path[|path| - 1] in f.kids
    && stack[|stack| - 1].1 < |f.kids[path[|path| - 1]]|
    && c == f.kids[path[|path| - 1]][stack[|stack| - 1].1]
    && c in f.parent && f.parent[c] == path[|path| - 1] && c in f.kids
  }

  lemma PushPath<N>(f: Forest<N>, head: N, stack: seq<Frame<N>>, path: seq<N>, c: N)
    requires Rooted(f) && StackIsPath(f, head, stack, path) && NextUp(f, stack, path, c)
    ensures StackIsPath(f, head, Pushed(stack, c), path + [c])
  {
    hide Rooted;
    var path', stack' := path + [c], Pushed(stack, c);
    forall i | 0 <= i < |path'|
      ensures path'[i] == stack'[i].0 && path'[i] in f.kids && stack'[i].1 <= |f.kids[path'[i]]|
    {
      assert i < |path| ==> path[i] == stack[i].0;
    }
  }

  lemma PushFrame<N>(f: Forest<N>, head: N, stack: seq<Frame<N>>, path: seq<N>, seen: set<N>, c: N, k: nat)
    requires Rooted(f) && StackIsPath(f, head, stack, path) && NextUp(f, stack, path, c)
    requires FramesFit(f, stack, path, seen) && c !in seen && k < |path|
    ensures path[k] in f.kids && KidsSeen(f, path[k], Pushed(stack, c)[k].1, seen + {c})
  {
    assert KidsSeen(f, path[k], stack[k].1, seen);
    if k < |path| - 1 {
      PathDistinct(f, path, k, |path| - 1);
      NotMyChild(f, path[k], c);
    } else {
      assert KidLinks(f, path[k]);
    }
  }

  lemma PushFresh<N>(f: Forest<N>, head: N, seen: set<N>, c: N)
    requires Rooted(f) && SeenFromAbove(f, head, seen) && c in f.kids && Above(f, head, c) && c !in seen
    ensures KidsSeen(f, c, 0, seen + {c})
  {
    forall j | 0 <= j < |f.kids[c]|
      ensures f.kids[c][j] !in seen + {c}
    {
      ChildIsBelow(f, head, c, j);
      assert Above(f, c, c);
      ChildIsBelow(f, c, c, j);
    }
  }

  lemma PushFrames<N>(f: Forest<N>, head: N, stack: seq<Frame<N>>, path: seq<N>, seen: set<N>, c: N)
    requires Rooted(f) && StackIsPath(f, head, stack, path) && SeenFromAbove(f, head, seen)
    requires FramesFit(f, stack, path, seen)
    requires NextUp(f, stack, path, c) && Above(f, head, c) && c !in seen
    ensures FramesFit(f, Pushed(stack, c), path + [c], seen + {c})
  {
    hide Rooted, SeenFromAbove, KidsSeen;
    var path', stack' := path + [c], Pushed(stack, c);
    forall k | 0 <= k < |path'|
      ensures path'[k] in seen + {c} && path'[k] in f.kids && KidsSeen(f, path'[k], stack'[k].1, seen + {c})
    {
      if k < |path| {
        PushFrame(f, head, stack, path, seen, c, k);
      } else {
        PushFresh(f, head, seen, c);
      }
    }
  }

  lemma PushLeft<N>(f: Forest<N>, stack: seq<Frame<N>>, path: seq<N>, seen: set<N>, c: N)
    requires Rooted(f) && |stack| == |path| && NextUp(f, stack, path, c) && LeftDone(f, path, seen)
    ensures LeftDone(f, path + [c], seen + {c})
  {
    forall m | m in seen + {c} && m !in path + [c]
      ensures m in f.kids && KidsSeen(f, m, |f.kids[m]|, seen + {c})
    {
      assert m in seen && m !in path;
      assert KidsSeen(f, m, |f.kids[m]|, seen);
      NotMyChild(f, m, c);
    }
  }

  /** Going down to the next child. */
  lemma Push<N>(f: Forest<N>, head: N, target: N, stack: seq<Frame<N>>, path: seq<N>, seen: set<N>)
    requires Rooted(f) && head in f.kids && Searching(f, head, target, stack, path, seen)
    requires |path| > 0 && path[|path| - 1] != target
    requires stack[|stack| - 1].1 < |f.kids[path[|path| - 1]]|
    ensures var c := f.kids[path[|path| - 1]][stack[|stack| - 1].1];
            c !in seen && c in f.kids &&
            Searching(f, head, target, Pushed(stack, c), path + [c], seen + {c})
  {
    hide Rooted, Above, Descends;
    var n, i := path[|path| - 1], stack[|stack| - 1].1;
    var c := f.kids[n][i];
    assert n in seen && KidsSeen(f, n, i, seen);
    ChildIsBelow(f, head, n, i);
    assert NextUp(f, stack, path, c);
    PushPath(f, head, stack, path, c);
    PushFrames(f, head, stack, path, seen, c);
    PushLeft(f, stack, path, seen, c);
  }

  lemma NotMyChild<N>(f: Forest<N>, n: N, c: N)
    requires Rooted(f) && n in f.kids && c in f.parent && f.parent[c] != n
    ensures c !in f.kids[n]
  {
    assert KidLinks(f, n);
  }

  /** Backing out of a node all of whose children have been looked at. */
  lemma Pop<N>(f: Forest<N>, head: N, target: N, stack: seq<Frame<N>>, path: seq<N>, seen: set<N>)
    requires Rooted(f) && head in f.kids && Searching(f, head, target, stack, path, seen)
    requires |path| > 0 && path[|path| - 1] != target
    requires stack[|stack| - 1].1 >= |f.kids[path[|path| - 1]]|
    ensures Searching(f, head, target, stack[..|stack| - 1], path[..|path| - 1], seen)
  {
    hide Rooted, Above;
    var n := path[|path| - 1];
    PopLeft(f, stack, path, seen);
    assert StackIsPath(f, head, stack[..|stack| - 1], path[..|path| - 1]);
    assert FramesFit(f, stack[..|stack| - 1], path[..|path| - 1], seen);
  }

  lemma PopLeft<N>(f: Forest<N>, stack: seq<Frame<N>>, path: seq<N>, seen: set<N>)
    requires |stack| == |path| > 0 && FramesFit(f, stack, path, seen) && LeftDone(f, path, seen)
    requires path[|path| - 1] in f.kids && stack[|stack| - 1].1 == |f.kids[path[|path| - 1]]|
    ensures LeftDone(f, path[..|path| - 1], seen)
  {
    var n := path[|path| - 1];
    assert path == path[..|path| - 1] + [n];
    assert KidsSeen(f, n, |f.kids[n]|, seen);
  }

  /** When nothing is left on the stack, everything below `head` has been seen. */
  lemma {:induction false} AllSeen<N>(f: Forest<N>, head: N, target: N, seen: set<N>, n: N)
    requires Rooted(f) && Searching(f, head, target, [], [], seen) && n in f.kids && Above(f, head, n)
    ensures n in seen
    decreases f.depth[n]
  {
    if n != head {
      assert ParentLink(f, n);
      AllSeen(f, head, target, seen, f.parent[n]);
      assert KidsSeen(f, f.parent[n], |f.kids[f.parent[n]]|, seen);
    }
  }

  lemma TopFrame<N>(f: Forest<N>, head: N, target: N, stack: seq<Frame<N>>, path: seq<N>, seen: set<N>)
    requires Rooted(f) && Searching(f, head, target, stack, path, seen) && |stack| > 0
    ensures |stack| == |path| && path[0] == head && Descends(f, path)
    ensures stack[|stack| - 1].0 == path[|path| - 1] && path[|path| - 1] in f.kids
  {
  }

  lemma NothingLeft<N>(f: Forest<N>, head: N, target: N, seen: set<N>)
    requires Rooted(f) && Searching(f, head, target, [], [], seen)
    ensures target in f.kids ==> !Above(f, head, target)
  {
    if target in f.kids && Above(f, head, target) {
      AllSeen(f, head, target, seen, target);
    }
  }

  lemma FewerLeft<N>(all: set<N>, seen: set<N>, c: N)
    requires c in all && c !in seen
    ensures |all - (seen + {c})| < |all - seen|
  {
    assert all - seen == (all - (seen + {c})) + {c};
  }
}
