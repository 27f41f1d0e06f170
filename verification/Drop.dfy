/** Dropping a database: a walk level by level, from the leaves up, frees every page once. */
module Drop {
  import opened Options
  import opened BTree
  import opened BTreeShape
  import opened BTreeProofs
  import opened CursorPath
  import opened Cursors

  /** A page, by where it hangs: a node of the tree, or the k-th overflow page of entry i of a leaf. */
  datatype PageId = Node(path: Path) | Over(path: Path, i: nat, k: nat)

  /** How many overflow pages the data of an entry takes. */
  function OvPages(env: Env, e: Entry): nat
    requires env.psize > 0
  {
    if NODESIZE + env.ksize(e.key) + |e.val| > NodeMax(env) then (PAGEHDRSZ - 1 + |e.val|) / env.psize + 1 else 0
  }

  // ---------------------------------------------------------------- levels

  /** The paths of the children of a page. */
  function KidPaths(p: Path, n: nat): (r: seq<Path>)
    ensures |r| == n && forall i :: 0 <= i < n ==> r[i] == p + [i]
  {
    seq(n, i requires 0 <= i < n => p + [i])
  }

  function Children(t: Tree, ps: seq<Path>): seq<Path> {
    if ps == [] then [] else KidPaths(ps[0], NumKeys(PageAt(t, ps[0]))) + Children(t, ps[1..])
  }

  /** The pages of level `h`, from left to right. */
  function Level(t: Tree, h: nat): seq<Path> {
    if h == 0 then [[]] else Children(t, Level(t, h - 1))
  }

  /** Each page's right sibling is the next one; the last has none. */
  ghost predicate Chain(t: Tree, ps: seq<Path>) {
    ps != [] ==>
      && (forall x :: Sibling(t, ps[0] + [x], true) == if |ps| == 1 then None else Some(ps[1] + [0]))
      && Chain(t, ps[1..])
  }

  /** Branches with children. */
  ghost predicate Inner(t: Tree, ps: seq<Path>) {
    forall i :: 0 <= i < |ps| ==> PageAt(t, ps[i]).Branch? && NumKeys(PageAt(t, ps[i])) > 0
  }

  lemma SiblingInside(t: Tree, p: Path, i: nat, x: nat)
    requires i + 1 < NumKeys(PageAt(t, p))
    ensures Sibling(t, p + [i] + [x], true) == Some(p + [i + 1] + [0])
  {
    hide Sibling, PageAt;
    SiblingOf(t, p + [i], x, true);
    assert Init(p + [i]) == p;
  }

  lemma SiblingAcross(t: Tree, p: Path, i: nat, x: nat)
    requires i + 1 == NumKeys(PageAt(t, p))
    ensures Sibling(t, p + [i] + [x], true) == Enter(t, Sibling(t, p + [i], true), true)
  {
    hide Sibling, PageAt;
    SiblingOf(t, p + [i], x, true);
    assert Init(p + [i]) == p;
  }

  /** Children i .. of the first page, then those of the others. */
  function ChildrenFrom(t: Tree, ps: seq<Path>, i: nat): seq<Path>
    requires ps != [] && i <= NumKeys(PageAt(t, ps[0]))
  {
    KidPaths(ps[0], NumKeys(PageAt(t, ps[0])))[i..] + Children(t, ps[1..])
  }

  lemma ChainCons(t: Tree, p: Path, rest: seq<Path>)
    requires Chain(t, rest) && forall x :: Sibling(t, p + [x], true) == if rest == [] then None else Some(rest[0] + [0])
    ensures Chain(t, [p] + rest)
  {
    assert ([p] + rest)[1..] == rest;
  }

  lemma FirstChild(t: Tree, ps: seq<Path>, i: nat)
    requires ps != [] && i < NumKeys(PageAt(t, ps[0]))
    ensures var n, p := NumKeys(PageAt(t, ps[0])), ps[0];
      ChildrenFrom(t, ps, i) == [p + [i]] + if i + 1 < n then ChildrenFrom(t, ps, i + 1) else Children(t, ps[1..])
    ensures ChildrenFrom(t, ps, 0) == Children(t, ps)
  {
    hide PageAt, KidPaths;
    var kids := KidPaths(ps[0], NumKeys(PageAt(t, ps[0])));
    ConsSlice(kids, i, Children(t, ps[1..]));
    hide Children;
  }

  lemma ConsSlice<T>(s: seq<T>, i: nat, c: seq<T>)
    requires i < |s|
    ensures s[i..] + c == [s[i]] + (s[i + 1..] + c)
    ensures i + 1 == |s| ==> s[i..] + c == [s[i]] + c
    ensures s[0..] + c == s + c
  {}

  lemma {:induction false} ChainDown(t: Tree, ps: seq<Path>, i: nat)
    requires ps != [] && Chain(t, ps) && Inner(t, ps) && i < NumKeys(PageAt(t, ps[0]))
    ensures Chain(t, ChildrenFrom(t, ps, i))
    decreases |ps|, NumKeys(PageAt(t, ps[0])) - i + 1
  {
    hide Sibling, PageAt, Enter, ChildrenFrom, Children, KidPaths;
    var n, p := NumKeys(PageAt(t, ps[0])), ps[0];
    FirstChild(t, ps, i);
    if i + 1 < n {
      ChainDown(t, ps, i + 1);
      FirstChild(t, ps, i + 1);
      forall x: nat ensures Sibling(t, p + [i] + [x], true) == Some(p + [i + 1] + [0]) { SiblingInside(t, p, i, x); }
      ChainCons(t, p + [i], ChildrenFrom(t, ps, i + 1));
    } else {
      var rest := Children(t, ps[1..]);
      ChainRest(t, ps);
      forall x: nat ensures Sibling(t, p + [i] + [x], true) == if rest == [] then None else Some(rest[0] + [0]) {
        SiblingAcross(t, p, i, x);
        EnterNext(t, ps, i, rest);
      }
      ChainCons(t, p + [i], rest);
    }
  }

  lemma {:induction false} ChainRest(t: Tree, ps: seq<Path>)
    requires ps != [] && Chain(t, ps) && Inner(t, ps)
    ensures Chain(t, Children(t, ps[1..]))
    decreases |ps|, 0
  {
    hide Sibling, PageAt;
    if |ps| > 1 {
      ChainDown(t, ps[1..], 0);
      FirstChild(t, ps[1..], 0);
    }
  }

  lemma EnterNext(t: Tree, ps: seq<Path>, i: nat, rest: seq<Path>)
    requires ps != [] && Chain(t, ps) && Inner(t, ps) && rest == Children(t, ps[1..])
    ensures Enter(t, Sibling(t, ps[0] + [i], true), true) == if rest == [] then None else Some(rest[0] + [0])
  {
    hide Sibling, PageAt;
    if |ps| > 1 { assert rest[0] == ps[1] + [0]; }
  }

  function Zeros(n: nat): (r: Path)
    ensures |r| == n && forall i :: 0 <= i < n ==> r[i] == 0
  {
    seq(n, _ => 0)
  }

  /** The pages of a level: on paths of that length, the first one leftmost. */
  ghost predicate OnLevel(t: Tree, ps: seq<Path>, h: nat) {
    ps != [] && ps[0] == Zeros(h) && forall k :: 0 <= k < |ps| ==> |ps[k]| == h && OnPath(t, ps[k])
  }

  lemma {:induction false} ChildrenOnPath(t: Tree, ps: seq<Path>, h: nat)
    requires Inner(t, ps) && forall k :: 0 <= k < |ps| ==> |ps[k]| == h && OnPath(t, ps[k])
    ensures forall k :: 0 <= k < |Children(t, ps)| ==> |Children(t, ps)[k]| == h + 1 && OnPath(t, Children(t, ps)[k])
  {
    if ps != [] {
      ChildrenOnPath(t, ps[1..], h);
      var p := ps[0];
      var kids := KidPaths(p, NumKeys(PageAt(t, p)));
      forall i | 0 <= i < |kids| ensures |kids[i]| == h + 1 && OnPath(t, kids[i]) { KidStart(t, p, i); }
      hide OnPath, PageAt;
    }
  }

  lemma {:induction false} LevelOk(env: Env, t: Tree, d: nat, h: nat)
    requires BTree.Valid(env, t, d, Inf, Inf) && h <= d
    ensures Chain(t, Level(t, h)) && OnLevel(t, Level(t, h), h)
    ensures h < d ==> Inner(t, Level(t, h))
    decreases h
  {
    hide BTree.Valid, OnPath, PageAt, Sibling, Inner;
    LevelRoot(t);
    if h > 0 {
      LevelOk(env, t, d, h - 1);
      LevelDown(t, Level(t, h - 1), h - 1);
    }
    if h < d { LevelInner(env, t, d, Level(t, h), h); }
  }

  lemma LevelRoot(t: Tree)
    ensures Chain(t, [[]]) && OnLevel(t, [[]], 0)
  {
    assert Zeros(0) == [];
  }

  lemma LevelDown(t: Tree, up: seq<Path>, h: nat)
    requires Chain(t, up) && OnLevel(t, up, h) && Inner(t, up)
    ensures Chain(t, Children(t, up)) && OnLevel(t, Children(t, up), h + 1)
  {
    hide OnPath, PageAt, Sibling, Chain;
    ChainDown(t, up, 0);
    FirstChild(t, up, 0);
    ChildrenOnPath(t, up, h);
    assert Zeros(h) + [0] == Zeros(h + 1);
  }

  lemma LevelInner(env: Env, t: Tree, d: nat, ps: seq<Path>, h: nat)
    requires BTree.Valid(env, t, d, Inf, Inf) && OnLevel(t, ps, h) && h < d
    ensures Inner(t, ps)
  {
    forall k | 0 <= k < |ps| ensures PageAt(t, ps[k]).Branch? && NumKeys(PageAt(t, ps[k])) > 0 {
      PageShape(env, t, d, ps[k]);
    }
  }

  /** The leftmost path is all zeros. */
  lemma {:induction false} StartIsLeftmost(env: Env, t: Tree, d: nat, path: Path)
    requires BTree.Valid(env, t, d, Inf, Inf) && OnPath(t, path) && Start(t, path) == 0
    ensures path == Zeros(|path|)
    decreases |path|
  {
    if path != [] {
      var up, i := Init(path), Last(path);
      StartIsLeftmost(env, t, d, up);
      var lo, hi := PageOk(env, t, d, up);
      var p := PageAt(t, up);
      WeakShape(env, p, d - |up|, lo, hi);
      if i > 0 {
        CutLeft(env, p.seps, p.kids, d - |up| - 1, lo, hi, i);
        FlatOk(env, p.seps[..i - 1], p.kids[..i], d - |up| - 1, lo, At(p.seps[i - 1]));
      }
    }
  }

  // ---------------------------------------------------------------- what is freed

  /** Overflow pages of entry i: the run from its first page on. */
  function RunIds(path: Path, i: nat, n: nat): (r: seq<PageId>)
    ensures |r| == n && forall k :: 0 <= k < n ==> r[k] == Over(path, i, k)
  {
    seq(n, k requires 0 <= k < n => Over(path, i, k))
  }

  /** Overflow pages of entries i .. of a leaf. */
  function OverIds(env: Env, path: Path, es: seq<Entry>, i: nat): seq<PageId>
    requires env.psize > 0 && i <= |es|
    decreases |es| - i
  {
    if i == |es| then [] else RunIds(path, i, OvPages(env, es[i])) + OverIds(env, path, es, i + 1)
  }

  function NodeIds(paths: seq<Path>): (r: seq<PageId>)
    ensures |r| == |paths| && forall k :: 0 <= k < |r| ==> r[k] == Node(paths[k])
  {
    seq(|paths|, k requires 0 <= k < |paths| => Node(paths[k]))
  }

  /** What the walk frees at one page: overflow pages of a leaf, children of a branch. */
  function FreedIn(env: Env, mp: Tree, p: Path): seq<PageId>
    requires env.psize > 0
  {
    match mp
    case Leaf(es) => OverIds(env, p, es, 0)
    case Branch(_, kids) => NodeIds(KidPaths(p, |kids|))
  }

  function FreedAt(env: Env, t: Tree, p: Path): seq<PageId>
    requires env.psize > 0
  {
    FreedIn(env, PageAt(t, p), p)
  }

  function FreedOn(env: Env, t: Tree, ps: seq<Path>): seq<PageId>
    requires env.psize > 0
  {
    if ps == [] then [] else FreedAt(env, t, ps[0]) + FreedOn(env, t, ps[1..])
  }

  /** What is freed on levels h .. d, the deepest first. */
  function FreedFrom(env: Env, t: Tree, h: nat, d: nat): seq<PageId>
    requires env.psize > 0
    decreases d + 1 - h
  {
    if h > d then [] else FreedFrom(env, t, h + 1, d) + FreedOn(env, t, Level(t, h))
  }

  lemma {:induction false} FreedOnStep(env: Env, t: Tree, ps: seq<Path>, k: nat)
    requires env.psize > 0 && k < |ps|
    ensures FreedOn(env, t, ps[..k + 1]) == FreedOn(env, t, ps[..k]) + FreedAt(env, t, ps[k])
    decreases k
  {
    hide FreedAt;
    if k == 0 {
      assert ps[..1][1..] == [] && ps[..0] == [];
    } else {
      FreedOnStep(env, t, ps[1..], k - 1);
      assert ps[..k + 1][1..] == ps[1..][..k] && ps[..k][1..] == ps[1..][..k - 1];
    }
  }

  /** All pages of a subtree of height `h` at `p`: itself, and what hangs below it. */
  function Subtree(env: Env, t: Tree, p: Path, h: nat): multiset<PageId>
    requires env.psize > 0
    decreases h, 0
  {
    multiset{Node(p)} +
    match PageAt(t, p)
    case Leaf(es) => multiset(OverIds(env, p, es, 0))
    case Branch(_, kids) => if h == 0 then multiset{} else Subtrees(env, t, p, |kids|, h - 1)
  }

  /** The subtrees of the first `n` children. */
  function Subtrees(env: Env, t: Tree, p: Path, n: nat, h: nat): multiset<PageId>
    requires env.psize > 0
    decreases h, n + 1
  {
    if n == 0 then multiset{} else Subtrees(env, t, p, n - 1, h) + Subtree(env, t, p + [n - 1], h)
  }

  function SubtreesOf(env: Env, t: Tree, ps: seq<Path>, h: nat): multiset<PageId>
    requires env.psize > 0
  {
    if ps == [] then multiset{} else Subtree(env, t, ps[0], h) + SubtreesOf(env, t, ps[1..], h)
  }

  lemma {:induction false} SubtreesConcat(env: Env, t: Tree, a: seq<Path>, b: seq<Path>, h: nat)
    requires env.psize > 0
    ensures SubtreesOf(env, t, a + b, h) == SubtreesOf(env, t, a, h) + SubtreesOf(env, t, b, h)
    decreases a
  {
    if a == [] {
      assert a + b == b;
    } else {
      assert (a + b)[1..] == a[1..] + b;
      SubtreesConcat(env, t, a[1..], b, h);
    }
  }

  lemma {:induction false} SubtreesAsList(env: Env, t: Tree, p: Path, n: nat, h: nat)
    requires env.psize > 0
    ensures Subtrees(env, t, p, n, h) == SubtreesOf(env, t, KidPaths(p, n), h)
    decreases n
  {
    if n > 0 {
      hide Subtree, PageAt;
      SubtreesAsList(env, t, p, n - 1, h);
      KidPathsSnoc(p, n - 1);
      SubtreesConcat(env, t, KidPaths(p, n - 1), [p + [n - 1]], h);
      OneSubtree(env, t, p + [n - 1], h);
      hide SubtreesOf, KidPaths;
    }
  }

  lemma KidPathsSnoc(p: Path, n: nat)
    ensures KidPaths(p, n + 1) == KidPaths(p, n) + [p + [n]]
  {
    hide KidPaths;
  }

  lemma OneSubtree(env: Env, t: Tree, q: Path, h: nat)
    requires env.psize > 0
    ensures SubtreesOf(env, t, [q], h) == Subtree(env, t, q, h)
  {
    hide Subtree;
    assert SubtreesOf(env, t, [q][1..], h) == multiset{};
  }

  /** The subtrees of a level are its pages, and the subtrees of the next level. */
  lemma {:induction false} LevelSplits(env: Env, t: Tree, ps: seq<Path>, h: nat)
    requires env.psize > 0 && h > 0 && Inner(t, ps)
    ensures SubtreesOf(env, t, ps, h) == multiset(NodeIds(ps)) + SubtreesOf(env, t, Children(t, ps), h - 1)
    decreases ps
  {
    hide Subtree, PageAt, KidPaths, NodeIds, SubtreesOf;
    SubtreesCons(env, t, ps, h);
    if ps != [] {
      var p, kids := ps[0], KidPaths(ps[0], NumKeys(PageAt(t, ps[0])));
      LevelSplits(env, t, ps[1..], h);
      SubtreeSplits(env, t, p, h);
      SubtreesConcat(env, t, kids, Children(t, ps[1..]), h - 1);
      assert NodeIds(ps) == [Node(p)] + NodeIds(ps[1..]);
    }
  }

  lemma SubtreesCons(env: Env, t: Tree, ps: seq<Path>, h: nat)
    requires env.psize > 0 && h > 0
    ensures ps == [] ==>
      SubtreesOf(env, t, ps, h) == multiset{} && SubtreesOf(env, t, Children(t, ps), h - 1) == multiset{}
    ensures ps != [] ==> SubtreesOf(env, t, ps, h) == Subtree(env, t, ps[0], h) + SubtreesOf(env, t, ps[1..], h)
  {}

  lemma SubtreeSplits(env: Env, t: Tree, p: Path, h: nat)
    requires env.psize > 0 && h > 0 && PageAt(t, p).Branch?
    ensures Subtree(env, t, p, h) == multiset{Node(p)} + SubtreesOf(env, t, KidPaths(p, NumKeys(PageAt(t, p))), h - 1)
  {
    hide PageAt, KidPaths, Subtrees, SubtreesOf, OverIds;
    SubtreesAsList(env, t, p, NumKeys(PageAt(t, p)), h - 1);
  }

  /** Freeing on a level of branches frees the pages of the next level. */
  lemma {:induction false} FreedOnIsChildren(env: Env, t: Tree, ps: seq<Path>)
    requires env.psize > 0 && Inner(t, ps)
    ensures FreedOn(env, t, ps) == NodeIds(Children(t, ps))
    decreases ps
  {
    if ps != [] {
      var n := NumKeys(PageAt(t, ps[0]));
      FreedOnIsChildren(env, t, ps[1..]);
      NodeIdsConcat(KidPaths(ps[0], n), Children(t, ps[1..]));
    }
  }

  lemma NodeIdsConcat(a: seq<Path>, b: seq<Path>)
    ensures NodeIds(a + b) == NodeIds(a) + NodeIds(b)
  {}

  /** The subtrees of a level of leaves are its pages, and what is freed there. */
  lemma {:induction false} LeafLevel(env: Env, t: Tree, ps: seq<Path>)
    requires env.psize > 0 && forall k :: 0 <= k < |ps| ==> PageAt(t, ps[k]).Leaf?
    ensures SubtreesOf(env, t, ps, 0) == multiset(NodeIds(ps)) + multiset(FreedOn(env, t, ps))
    decreases ps
  {
    if ps != [] {
      LeafLevel(env, t, ps[1..]);
      assert NodeIds(ps) == [Node(ps[0])] + NodeIds(ps[1..]);
    }
  }

  /** The pages of level h and all that is freed from there on are all pages from there on. */
  lemma {:induction false} FreedFromIsAll(env: Env, t: Tree, h: nat, d: nat)
    requires env.psize > 0 && BTree.Valid(env, t, d, Inf, Inf) && h <= d
    ensures multiset(NodeIds(Level(t, h))) + multiset(FreedFrom(env, t, h, d)) == SubtreesOf(env, t, Level(t, h), d - h)
    decreases d - h
  {
    hide BTree.Valid, Chain, PageAt, FreedOn, NodeIds, SubtreesOf, OnLevel, Inner, Level, FreedFrom;
    var ps := Level(t, h);
    LevelOk(env, t, d, h);
    FreedFromSteps(env, t, h, d);
    if h == d {
      LevelLeaves(env, t, d, ps);
      LeafLevel(env, t, ps);
    } else {
      FreedFromIsAll(env, t, h + 1, d);
      FreedOnIsChildren(env, t, ps);
      LevelSplits(env, t, ps, d - h);
    }
  }

  lemma FreedFromSteps(env: Env, t: Tree, h: nat, d: nat)
    requires env.psize > 0 && h <= d
    ensures multiset(FreedFrom(env, t, h, d)) ==
      multiset(FreedFrom(env, t, h + 1, d)) + multiset(FreedOn(env, t, Level(t, h)))
    ensures h == d ==> FreedFrom(env, t, h + 1, d) == []
    ensures Level(t, h + 1) == Children(t, Level(t, h))
  {
    hide FreedOn, Children;
  }

  lemma LevelLeaves(env: Env, t: Tree, d: nat, ps: seq<Path>)
    requires BTree.Valid(env, t, d, Inf, Inf) && OnLevel(t, ps, d)
    ensures forall k :: 0 <= k < |ps| ==> PageAt(t, ps[k]).Leaf?
  {
    forall k | 0 <= k < |ps| ensures PageAt(t, ps[k]).Leaf? { PageShape(env, t, d, ps[k]); }
  }

  /** Everything freed, with the root: each page of the tree once. */
  lemma AllFreed(env: Env, t: Tree, d: nat)
    requires env.psize > 0 && BTree.Valid(env, t, d, Inf, Inf)
    ensures multiset(FreedFrom(env, t, 0, d) + [Node([])]) == Subtree(env, t, [], d)
  {
    hide BTree.Valid, FreedFrom, Subtree;
    FreedFromIsAll(env, t, 0, d);
    var root: seq<Path> := [[]];
    assert Level(t, 0) == root && root[0] == [] && root[1..] == [];
    assert NodeIds(root) == [Node([])];
    assert SubtreesOf(env, t, root, d) == Subtree(env, t, [], d) + SubtreesOf(env, t, root[1..], d);
    var f := FreedFrom(env, t, 0, d);
    assert multiset(f + [Node([])]) == multiset(f) + multiset([Node([])]);
    assert multiset([Node([])]) + multiset(f) == SubtreesOf(env, t, root, d);
    assert SubtreesOf(env, t, root, d) == Subtree(env, t, [], d);
  }

  // ---------------------------------------------------------------- once

  ghost predicate Under(p: Path, q: Path) {
    |p| <= |q| && q[..|p|] == p
  }

  lemma {:induction false} OverOnce(env: Env, path: Path, es: seq<Entry>, i: nat, id: PageId)
    requires env.psize > 0 && i <= |es|
    ensures var m := multiset(OverIds(env, path, es, i))[id];
      m <= 1 && (m > 0 ==> id.Over? && id.path == path && i <= id.i)
    decreases |es| - i
  {
    if i < |es| {
      OverOnce(env, path, es, i + 1, id);
      RunOnce(path, i, OvPages(env, es[i]), id);
      hide RunIds, OvPages;
    }
  }

  lemma {:induction false} RunOnce(path: Path, i: nat, n: nat, id: PageId)
    ensures var m := multiset(RunIds(path, i, n))[id];
      m <= 1 && (m > 0 ==> id.Over? && id.path == path && id.i == i && id.k < n)
    decreases n
  {
    if n > 0 {
      RunOnce(path, i, n - 1, id);
      assert RunIds(path, i, n) == RunIds(path, i, n - 1) + [Over(path, i, n - 1)];
    }
  }

  /** No page is in a tree twice. */
  lemma {:induction false} SubtreeOnce(env: Env, t: Tree, p: Path, h: nat, id: PageId)
    requires env.psize > 0
    ensures Subtree(env, t, p, h)[id] <= 1
    ensures Subtree(env, t, p, h)[id] > 0 ==> Under(p, id.path)
    decreases h, 0
  {
    match PageAt(t, p)
    case Leaf(es) => OverOnce(env, p, es, 0, id);
    case Branch(_, kids) => if h > 0 { SubtreesOnce(env, t, p, |kids|, h - 1, id); }
  }

  lemma {:induction false} SubtreesOnce(env: Env, t: Tree, p: Path, n: nat, h: nat, id: PageId)
    requires env.psize > 0
    ensures Subtrees(env, t, p, n, h)[id] <= 1
    ensures Subtrees(env, t, p, n, h)[id] > 0 ==> UnderFirst(p, id.path, n)
    decreases h, n + 1
  {
    hide Subtree, Under, PageAt, UnderFirst;
    if n > 0 {
      SubtreesOnce(env, t, p, n - 1, h, id);
      SubtreeOnce(env, t, p + [n - 1], h, id);
      UnderChild(p, n - 1, id.path);
    }
  }

  /** Below one of the first `n` children of `p`. */
  predicate UnderFirst(p: Path, q: Path, n: nat) {
    |q| > |p| && q[..|p|] == p && q[|p|] < n
  }

  lemma UnderChild(p: Path, i: nat, q: Path)
    ensures Under(p + [i], q) ==> UnderFirst(p, q, i + 1) && !UnderFirst(p, q, i)
    ensures UnderFirst(p, q, i) ==> UnderFirst(p, q, i + 1)
  {
    if Under(p + [i], q) {
      var r := q[..|p| + 1];
      assert r[..|p|] == q[..|p|] && r[|p|] == q[|p|];
    }
  }

  // ---------------------------------------------------------------- which pages these are

  /** The page that the child indices of `path` lead to, going down from `t`. */
  function Down(t: Tree, path: Path): Option<Tree> {
    if path == [] then Some(t)
    else if t.Branch? && path[0] < |t.kids| then Down(t.kids[path[0]], path[1..])
    else None
  }

  /**
    A page of the tree `t`: a branch or leaf at the end of a path; or, of an entry that is too large
    for a node, overflow page `k` for as long as the header and the data reach beyond the pages before.
   */
  ghost predicate IsPage(env: Env, t: Tree, path: Path, id: PageId) {
    match id
    case Node(_) => Down(t, path).Some?
    case Over(_, i, k) =>
      && Down(t, path).Some? && Down(t, path).value.Leaf?
      && var es := Down(t, path).value.es;
      && i < |es| && NODESIZE + env.ksize(es[i].key) + |es[i].val| > NodeMax(env)
      && k * env.psize < PAGEHDRSZ + |es[i].val|
  }

  /** A run has as many pages as it takes to hold the header and the data. */
  lemma OvPagesExact(env: Env, e: Entry, k: nat)
    requires env.psize > 0
    ensures k < OvPages(env, e) <==>
      NODESIZE + env.ksize(e.key) + |e.val| > NodeMax(env) && k * env.psize < PAGEHDRSZ + |e.val|
  {
    var n, p := PAGEHDRSZ - 1 + |e.val|, env.psize;
    QuotientIs(n, p, k);
  }

  lemma QuotientIs(n: nat, p: nat, k: nat)
    requires p > 0
    ensures k <= n / p <==> k * p <= n
  {
    var q := n / p;
    assert q * p <= n < (q + 1) * p;
    if k <= q {
      TimesUp(k, q, p);
    } else {
      TimesUp(q + 1, k, p);
    }
  }

  lemma {:induction false} TimesUp(a: nat, b: nat, p: nat)
    requires a <= b
    ensures a * p <= b * p
    decreases b
  {
    if a < b {
      TimesUp(a, b - 1, p);
      assert b * p == (b - 1) * p + p;
    }
  }

  lemma {:induction false} OverIdsExact(env: Env, path: Path, es: seq<Entry>, i: nat, id: PageId)
    requires env.psize > 0 && i <= |es|
    ensures id in multiset(OverIds(env, path, es, i)) <==>
      id.Over? && id.path == path && i <= id.i < |es| && id.k < OvPages(env, es[id.i])
    decreases |es| - i
  {
    hide OvPages, RunIds;
    if i < |es| {
      OverIdsExact(env, path, es, i + 1, id);
      RunIdsExact(path, i, OvPages(env, es[i]), id);
      InEither(RunIds(path, i, OvPages(env, es[i])), OverIds(env, path, es, i + 1), id);
    }
  }

  lemma InEither(a: seq<PageId>, b: seq<PageId>, id: PageId)
    ensures id in multiset(a + b) <==> id in multiset(a) || id in multiset(b)
  {}

  lemma RunIdsExact(path: Path, i: nat, n: nat, id: PageId)
    ensures id in multiset(RunIds(path, i, n)) <==> id.Over? && id.path == path && id.i == i && id.k < n
  {
    var run := RunIds(path, i, n);
    hide RunIds;
    if id.Over? && id.path == path && id.i == i && id.k < n { assert run[id.k] == id; }
    assert id in multiset(run) <==> id in run;
  }

  /** The subtree at `p` holds just the pages below it. */
  lemma {:induction false} SubtreeExact(env: Env, t: Tree, d: nat, p: Path, h: nat, id: PageId)
    requires env.psize > 0 && BTree.Valid(env, t, d, Inf, Inf) && OnPath(t, p) && |p| + h == d
    ensures id in Subtree(env, t, p, h) <==>
      Under(p, id.path) && IsPage(env, PageAt(t, p), id.path[|p|..], id)
    decreases h, 0
  {
    hide BTree.Valid, OnPath;
    PageShape(env, t, d, p);
    var q := id.path;
    if Under(p, q) { assert q == p + q[|p|..]; }
    hide PageAt;
    match PageAt(t, p)
    case Leaf(es) =>
      LeafExact(env, p, es, id);
    case Branch(seps, kids) =>
      hide Subtrees;
      SubtreesExact(env, t, d, p, kids, |kids|, h - 1, id);
      if UnderFirst(p, q, |kids|) { assert q[|p|..][0] == q[|p|] && q[|p|..][1..] == q[|p| + 1..]; }
      BranchExact(env, p, Branch(seps, kids), id);
  }

  lemma LeafExact(env: Env, p: Path, es: seq<Entry>, id: PageId)
    requires env.psize > 0
    ensures id in multiset{Node(p)} + multiset(OverIds(env, p, es, 0)) <==>
      Under(p, id.path) && IsPage(env, Leaf(es), id.path[|p|..], id)
  {
    hide OvPages, OverIds;
    OverIdsExact(env, p, es, 0, id);
    if id.Over? && id.i < |es| { OvPagesExact(env, es[id.i], id.k); }
    LeafPage(env, p, es, id);
    hide IsPage, Under;
  }

  lemma LeafPage(env: Env, p: Path, es: seq<Entry>, id: PageId)
    ensures Under(p, id.path) && IsPage(env, Leaf(es), id.path[|p|..], id) <==>
      && id.path == p
      && (id.Over? ==>
          && id.i < |es| && NODESIZE + env.ksize(es[id.i].key) + |es[id.i].val| > NodeMax(env)
          && id.k * env.psize < PAGEHDRSZ + |es[id.i].val|)
  {
    hide NodeMax;
    if Under(p, id.path) { assert id.path == p + id.path[|p|..]; }
  }

  /** A page of a branch is the branch itself, or below one of its children. */
  lemma BranchExact(env: Env, p: Path, t: Tree, id: PageId)
    requires t.Branch?
    ensures Under(p, id.path) && IsPage(env, t, id.path[|p|..], id) <==>
      || id == Node(p)
      || (UnderFirst(p, id.path, |t.kids|) && IsPage(env, t.kids[id.path[|p|]], id.path[|p| + 1..], id))
  {
    var q := id.path;
    if Under(p, q) {
      assert q == p + q[|p|..];
      if |q| > |p| { assert q[|p|..][0] == q[|p|] && q[|p|..][1..] == q[|p| + 1..]; }
    }
  }

  lemma {:induction false} SubtreesExact(
      env: Env, t: Tree, d: nat, p: Path, kids: seq<Tree>, n: nat, h: nat, id: PageId)
    requires env.psize > 0 && BTree.Valid(env, t, d, Inf, Inf) && OnPath(t, p) && |p| + h + 1 == d
    requires PageAt(t, p).Branch? && kids == PageAt(t, p).kids && n <= |kids|
    ensures id in Subtrees(env, t, p, n, h) <==>
      UnderFirst(p, id.path, n) && IsPage(env, kids[id.path[|p|]], id.path[|p| + 1..], id)
    decreases h, n + 1
  {
    hide BTree.Valid, OnPath, PageAt, Subtree, IsPage, Under, UnderFirst;
    UnderFirstShape(p, id.path, n);
    if n > 0 {
      ChildPage(t, p, n - 1);
      SubtreesExact(env, t, d, p, kids, n - 1, h, id);
      SubtreeExact(env, t, d, p + [n - 1], h, id);
      UnderFirstShape(p, id.path, n - 1);
      UnderChild(p, n - 1, id.path);
      ChildUnder(p, n - 1, id.path);
    }
  }

  lemma UnderFirstShape(p: Path, q: Path, n: nat)
    ensures UnderFirst(p, q, n) ==> |q| > |p| && q[|p|] < n
  {}

  lemma ChildPage(t: Tree, p: Path, i: nat)
    requires OnPath(t, p) && PageAt(t, p).Branch? && i < |PageAt(t, p).kids|
    ensures OnPath(t, p + [i]) && PageAt(t, p + [i]) == PageAt(t, p).kids[i]
  {
    assert Init(p + [i]) == p && Last(p + [i]) == i;
  }

  lemma ChildUnder(p: Path, i: nat, q: Path)
    ensures UnderFirst(p, q, i + 1) && !UnderFirst(p, q, i) ==> Under(p + [i], q) && q[|p|] == i
  {
    if UnderFirst(p, q, i + 1) && !UnderFirst(p, q, i) { assert q[..|p| + 1] == q[..|p|] + [q[|p|]]; }
  }

  // ---------------------------------------------------------------- the walk

  /** On level h, at its k-th page, with what lies before it freed. */
  ghost predicate Dropping(env: Env, t: Tree, d: nat, pg: seq<Tree>, ki: seq<nat>, n: nat, k: nat, freed: seq<PageId>) {
    && env.psize > 0 && 1 <= n <= d + 1 && StackOk(t, pg, ki, n)
    && k < |Level(t, n - 1)| && ki[..n - 1] == Level(t, n - 1)[k]
    && freed == FreedFrom(env, t, n, d) + FreedOn(env, t, Level(t, n - 1)[..k])
  }

  lemma {:induction false} ChainAt(t: Tree, ps: seq<Path>, k: nat, x: nat)
    requires Chain(t, ps) && k < |ps|
    ensures Sibling(t, ps[k] + [x], true) == if k + 1 == |ps| then None else Some(ps[k + 1] + [0])
    decreases k
  {
    hide Sibling;
    if k > 0 { ChainAt(t, ps[1..], k - 1, x); }
  }

  /** After a page, its sibling. */
  lemma DropSibling(env: Env, t: Tree, d: nat, pg: seq<Tree>, ki: seq<nat>, n: nat, k: nat, freed: seq<PageId>)
    requires BTree.Valid(env, t, d, Inf, Inf) && Dropping(env, t, d, pg, ki, n, k, freed)
    ensures Sibling(t, ki[..n], true) == if k + 1 == |Level(t, n - 1)| then None else Some(Level(t, n - 1)[k + 1] + [0])
    ensures freed + FreedAt(env, t, ki[..n - 1]) == FreedFrom(env, t, n, d) + FreedOn(env, t, Level(t, n - 1)[..k + 1])
  {
    hide BTree.Valid, Sibling, FreedFrom, FreedOn, FreedAt, Level;
    LevelOk(env, t, d, n - 1);
    var ps := Level(t, n - 1);
    ChainAt(t, ps, k, ki[n - 1]);
    assert ki[..n - 1] + [ki[n - 1]] == ki[..n];
    FreedOnStep(env, t, ps, k);
  }

  /** The next page of the level: all before it is freed. */
  lemma DropNext(env: Env, t: Tree, d: nat, pg: seq<Tree>, ki: seq<nat>, n: nat, k: nat, freed: seq<PageId>)
    requires env.psize > 0 && 1 <= n <= d + 1 && StackOk(t, pg, ki, n) && k < |Level(t, n - 1)|
    requires ki[..n] == Level(t, n - 1)[k] + [0] &&
      freed == FreedFrom(env, t, n, d) + FreedOn(env, t, Level(t, n - 1)[..k])
    ensures Dropping(env, t, d, pg, ki, n, k, freed)
  {
    assert ki[..n - 1] == ki[..n][..n - 1];
    hide FreedFrom, FreedOn;
  }

  /** The level is done: back to the leftmost page of the level above. */
  lemma DropUp(env: Env, t: Tree, d: nat, pg: seq<Tree>, ki: seq<nat>, n: nat, freed: seq<PageId>)
    requires BTree.Valid(env, t, d, Inf, Inf) && env.psize > 0 && 1 < n <= d + 1 && StackOk(t, pg, ki, n - 1)
    requires ki[..n - 2] == Zeros(n - 2) && freed == FreedFrom(env, t, n, d) + FreedOn(env, t, Level(t, n - 1))
    ensures Dropping(env, t, d, pg, ki, n - 1, 0, freed)
  {
    hide BTree.Valid, Level, Children, FreedFrom, FreedOn, StackOk, Chain, Inner;
    LevelOk(env, t, d, n - 2);
    LevelFreed(env, t, n - 1, d);
    assert Level(t, n - 2)[..0] == [];
    assert FreedFrom(env, t, n - 1, d) + [] == FreedFrom(env, t, n - 1, d);
  }

  lemma LevelFreed(env: Env, t: Tree, h: nat, d: nat)
    requires env.psize > 0 && h <= d
    ensures FreedFrom(env, t, h, d) == FreedFrom(env, t, h + 1, d) + FreedOn(env, t, Level(t, h))
    ensures FreedOn(env, t, []) == []
  {
    hide Level;
  }

  /** The leftmost pages, copied aside before the walk. */
  ghost predicate Leftmost(t: Tree, pg: seq<Tree>, n: nat) {
    n <= |pg| && forall i :: 0 <= i < n ==> pg[i] == PageAt(t, Zeros(i))
  }

  lemma StackLeftmost(t: Tree, pg: seq<Tree>, ki: seq<nat>, n: nat)
    requires 1 <= n <= |pg| == |ki| && Leftmost(t, pg, n) && ki[..n - 1] == Zeros(n - 1) && OnPath(t, Zeros(n - 1))
    ensures StackOk(t, pg, ki, n)
  {
    forall i | 0 <= i < n ensures pg[i] == PageAt(t, ki[..i]) { assert ki[..i] == Zeros(i); }
  }

  lemma LeftmostFirst(env: Env, t: Tree, d: nat, pg: seq<Tree>, ki: seq<nat>)
    requires BTree.Valid(env, t, d, Inf, Inf) && StackOk(t, pg, ki, d + 1) && Start(t, ki[..d]) == 0 && env.psize > 0
    ensures Leftmost(t, pg, d + 1) && Dropping(env, t, d, pg, ki, d + 1, 0, [])
  {
    hide BTree.Valid, Level, PageAt, OnPath, Chain, Inner;
    StartIsLeftmost(env, t, d, ki[..d]);
    LevelOk(env, t, d, d);
    forall i | 0 <= i < d + 1 ensures pg[i] == PageAt(t, Zeros(i)) {
      assert ki[..i] == ki[..d][..i] == Zeros(i);
    }
    assert Level(t, d)[..0] == [];
  }

  /** Reset the stack to the leftmost page of the level above. */
  method PopLevel(mc: Cursor, saved: seq<Tree>, ghost t: Tree)
    requires mc.snum > 1 && mc.snum <= mc.pg.Length == mc.ki.Length && |saved| == mc.pg.Length
    requires mc.pg[0] == saved[0] && Leftmost(t, saved, mc.snum) && OnPath(t, Zeros(mc.snum - 2))
    modifies mc`snum, mc.pg, mc.ki
    ensures mc.snum == old(mc.snum) - 1 && mc.pg[0] == saved[0] && StackOk(t, mc.pg[..], mc.ki[..], mc.snum) &&
      mc.ki[..mc.snum - 1] == Zeros(mc.snum - 1)
  {
    mc.snum := mc.snum - 1;
    mc.ki[0] := 0;
    forall i | 1 <= i < mc.snum { mc.ki[i] := 0; }
    forall i | 1 <= i < mc.snum { mc.pg[i] := saved[i]; }
    assert mc.ki[..mc.snum - 1] == Zeros(mc.snum - 1) == mc.ki[..][..mc.snum - 1];
    StackLeftmost(t, mc.pg[..], mc.ki[..], mc.snum);
  }

  /** Free what hangs at one page: overflow runs of a leaf, or the children of a branch. */
  method FreePage(env: Env, mp: Tree, path: Path) returns (freed: seq<PageId>)
    requires env.psize > 0
    ensures freed == FreedIn(env, mp, path)
  {
    freed := [];
    var i := 0;
    match mp
    case Leaf(es) =>
      while i < |es|
        invariant 0 <= i <= |es|
        invariant freed + OverIds(env, path, es, i) == OverIds(env, path, es, 0)
      {
        assert freed + (RunIds(path, i, OvPages(env, es[i])) + OverIds(env, path, es, i + 1))
            == freed + RunIds(path, i, OvPages(env, es[i])) + OverIds(env, path, es, i + 1);
        freed := freed + RunIds(path, i, OvPages(env, es[i]));
        i := i + 1;
      }
    case Branch(_, kids) =>
      while i < |kids|
        invariant 0 <= i <= |kids|
        invariant freed == NodeIds(KidPaths(path, i))
      {
        freed := freed + [Node(path + [i])];
        i := i + 1;
      }
  }

  /** The cursor is on a tree of depth d + 1, with the leftmost pages saved. */
  ghost predicate Walks(mc: Cursor, env: Env, t: Tree, d: nat, saved: seq<Tree>)
    reads mc
  {
    && mc.Shaped() && mc.root == Some(t) && mc.env == env && mc.depth == d + 1 && env.psize > 0
    && |saved| == mc.pg.Length && Leftmost(t, saved, d + 1)
  }

  lemma DropFacts(
      env: Env, t: Tree, d: nat, pg: seq<Tree>, ki: seq<nat>, n: nat, k: nat, freed: seq<PageId>, saved: seq<Tree>)
    requires Dropping(env, t, d, pg, ki, n, k, freed) && Leftmost(t, saved, d + 1) && BTree.Valid(env, t, d, Inf, Inf)
    ensures StackOk(t, pg, ki, n) && pg[0] == saved[0] &&
      FreedIn(env, pg[n - 1], ki[..n - 1]) == FreedAt(env, t, ki[..n - 1])
    ensures k < |Level(t, n - 1)|
    ensures Leftmost(t, saved, n) && (n > 1 ==> OnPath(t, Zeros(n - 2)))
  {
    assert ki[..0] == [] == Zeros(0);
    if n > 1 { LevelOk(env, t, d, n - 2); }
  }

  lemma DropDone(env: Env, t: Tree, d: nat, k: nat)
    requires env.psize > 0 && k < |Level(t, 0)|
    ensures FreedFrom(env, t, 1, d) + FreedOn(env, t, Level(t, 0)[..k + 1]) == FreedFrom(env, t, 0, d)
  {
    assert Level(t, 0)[..k + 1] == Level(t, 0);
  }

  /** One turn of the loop: free at the current page, then move on. */
  method DropStep(
      mc: Cursor, env: Env, saved: seq<Tree>, freed0: seq<PageId>, ghost t: Tree, ghost d: nat, ghost k: nat)
    returns (freed: seq<PageId>, done: bool, ghost k': nat)
    requires Walks(mc, env, t, d, saved) && 1 <= mc.snum <= d + 1
    requires Dropping(env, t, d, mc.pg[..], mc.ki[..], mc.snum, k, freed0)
    modifies mc`snum, mc.pg, mc.ki
    ensures done ==> freed == FreedFrom(env, t, 0, d)
    ensures !done ==>
      Walks(mc, env, t, d, saved) && 1 <= mc.snum <= d + 1 &&
      Dropping(env, t, d, mc.pg[..], mc.ki[..], mc.snum, k', freed)
    ensures !done ==> mc.snum < old(mc.snum) || (mc.snum == old(mc.snum) && k < k' <= |Level(t, mc.snum - 1)|)
  {
    hide BTree.Valid, Dropping, Level, PageAt, OnPath, StackOk, Leftmost, FreedFrom, FreedOn, FreedIn, FreedAt,
        Sibling, Zeros;
    done, k' := false, k;
    ghost var n := mc.snum;
    DropFacts(env, t, d, mc.pg[..], mc.ki[..], n, k, freed0, saved);
    DropSibling(env, t, d, mc.pg[..], mc.ki[..], n, k, freed0);
    var ids := FreePage(env, mc.pg[mc.snum - 1], mc.ki[..mc.snum - 1]);
    assert mc.ki[..n - 1] == mc.ki[..][..n - 1] && mc.ki[..n] == mc.ki[..][..n];
    freed := freed0 + ids;
    if mc.snum == 1 {
      DropDone(env, t, d, k);
      done := true;
      return;
    }
    var found := mc.Sibling(true);
    if found {
      k' := k + 1;
      DropNext(env, t, d, mc.pg[..], mc.ki[..], n, k', freed);
    } else {
      k' := 0;
      PopLevel(mc, saved, t);
      assert Level(t, n - 1)[..k + 1] == Level(t, n - 1);
      assert mc.ki[..n - 2] == mc.ki[..][..n - 2];
      DropUp(env, t, d, mc.pg[..], mc.ki[..], n, freed);
    }
  }

  /** mdb_drop0: every page of the tree, each once. */
  method Drop0(root: Option<Tree>, env: Env, ghost depth: nat) returns (freed: seq<PageId>)
    requires env.psize > 0 && depth <= CURSOR_STACK
    requires root.Some? ==> depth > 0 && BTree.Valid(env, root.value, depth - 1, Inf, Inf)
    ensures root.None? ==> freed == []
    ensures root.Some? ==> forall id :: id in freed <==> IsPage(env, root.value, id.path, id)
    ensures forall id :: multiset(freed)[id] <= 1
  {
    freed := [];
    if root.None? { return; }
    var mc := new Cursor(root, env, depth);
    ghost var d := depth - 1;
    freed := FreeLevels(mc, env, root.value, d);
    freed := freed + [Node([])];
    AllFreed(env, root.value, d);
    forall id: PageId ensures Subtree(env, root.value, [], d)[id] <= 1 { SubtreeOnce(env, root.value, [], d, id); }
    forall id: PageId ensures id in freed <==> IsPage(env, root.value, id.path, id) {
      SubtreeExact(env, root.value, d, [], d, id);
      assert id.path[0..] == id.path;
      assert id in freed <==> id in multiset(freed);
    }
    hide BTree.Valid, Subtree, IsPage;
  }

  /** When different pages have different numbers, as page conservation promises, no number is freed twice. */
  lemma NumbersOnce(freed: seq<PageId>, number: PageId -> nat, i: nat, j: nat)
    requires forall id :: multiset(freed)[id] <= 1
    requires forall a, b :: a in freed && b in freed && number(a) == number(b) ==> a == b
    requires i < j < |freed|
    ensures number(freed[i]) != number(freed[j])
  {
    assert freed == freed[..j] + freed[j..];
    assert freed[i] == freed[..j][i] && freed[j] == freed[j..][0];
    assert multiset(freed) == multiset(freed[..j]) + multiset(freed[j..]);
    assert freed[i] in multiset(freed[..j]) && freed[j] in multiset(freed[j..]);
    assert multiset(freed)[freed[j]] <= 1;
  }

  /** The loop, from the first leaf to the root. */
  method FreeLevels(mc: Cursor, env: Env, ghost t: Tree, ghost d: nat) returns (freed: seq<PageId>)
    requires mc.Shaped() && mc.root == Some(t) && mc.env == env && mc.depth == d + 1 && env.psize > 0
    modifies mc, mc.pg, mc.ki
    ensures freed == FreedFrom(env, t, 0, d)
  {
    hide BTree.Valid, Dropping, StackOk, Leftmost, FreedFrom;
    freed := [];
    var found := mc.PageSearch(FirstPage);
    ghost var k := 0;
    assert mc.ki[..d] == mc.ki[..][..d];
    LeftmostFirst(env, t, d, mc.pg[..], mc.ki[..]);
    var saved, done := mc.pg[..], false;
    while !done
      invariant done ==> freed == FreedFrom(env, t, 0, d)
      invariant !done ==>
        Walks(mc, env, t, d, saved) && 1 <= mc.snum <= d + 1 &&
        Dropping(env, t, d, mc.pg[..], mc.ki[..], mc.snum, k, freed)
      decreases !done, mc.snum, if mc.snum > 0 then |Level(t, mc.snum - 1)| - k else 0
    {
      freed, done, k := DropStep(mc, env, saved, freed, t, d, k);
    }
  }
}
