/** Where a cursor's stack of page indices stands in the sequence of all entries. */
module CursorPath {
  import opened Options
  import opened BTree
  import opened BTreePut

  type Path = seq<nat>

  function Init(path: Path): Path
    requires path != []
  {
    path[..|path| - 1]
  }

  function Last(path: Path): nat
    requires path != []
  {
    path[|path| - 1]
  }

  /** The page reached from `t` by the child indices of `path`. */
  function PageAt(t: Tree, path: Path): Tree {
    if path == [] then t else
      var p := PageAt(t, Init(path));
      if p.Branch? && Last(path) < |p.kids| then p.kids[Last(path)] else p
  }

  predicate OnPath(t: Tree, path: Path) {
    path != [] ==> OnPath(t, Init(path)) && PageAt(t, Init(path)).Branch? && Last(path) < |PageAt(t, Init(path)).kids|
  }

  /** How many entries of `t` come before the page at `path`. */
  function Start(t: Tree, path: Path): nat {
    if path == [] then 0 else
      var p := PageAt(t, Init(path));
      Start(t, Init(path)) + if p.Branch? && Last(path) <= |p.kids| then |Flat(p.kids[..Last(path)])| else 0
  }

  function Size(t: Tree, path: Path): nat {
    |Items(PageAt(t, path))|
  }

  /** `es` is what `items` holds from `s` on. */
  ghost predicate IsSegment(items: seq<Entry>, s: nat, es: seq<Entry>) {
    s + |es| <= |items| && forall j :: 0 <= j < |es| ==> es[j] == items[s + j]
  }

  lemma SegmentMiddle(items: seq<Entry>, s: nat, a: seq<Entry>, b: seq<Entry>, c: seq<Entry>)
    requires IsSegment(items, s, a + b + c)
    ensures IsSegment(items, s + |a|, b)
  {
    forall j | 0 <= j < |b| ensures b[j] == items[s + |a| + j] { assert b[j] == (a + b + c)[|a| + j]; }
  }

  /** The entries of a page are a segment of all entries. */
  lemma {:induction false} Segment(t: Tree, path: Path)
    requires OnPath(t, path)
    ensures IsSegment(Items(t), Start(t, path), Items(PageAt(t, path)))
    decreases |path|
  {
    if path != [] {
      var up, i := Init(path), Last(path);
      var p := PageAt(t, up);
      Segment(t, up);
      KidItems(p.kids, i);
      var a, b, c := Flat(p.kids[..i]), Items(p.kids[i]), Flat(p.kids[i + 1..]);
      assert Items(p) == a + b + c;
      hide Items, Flat, IsSegment;
      SegmentMiddle(Items(t), Start(t, up), a, b, c);
    }
  }

  lemma InitLast(path: Path)
    requires path != []
    ensures path == Init(path) + [Last(path)]
  {}

  lemma KidOk(env: Env, p: Tree, d: nat, lo: Bound, hi: Bound, i: nat)
    requires Weak(env, p, d, lo, hi) && p.Branch? && i < |p.kids|
    ensures d > 0 && |p.kids| == |p.seps| + 1 &&
      Valid(env, p.kids[i], d - 1, KidLo(p.seps, lo, i), KidHi(p.seps, hi, i))
  {}

  /** Pages on a path of a valid tree are valid for some range of keys. */
  lemma {:induction false} PageOk(env: Env, t: Tree, d: nat, path: Path) returns (lo: Bound, hi: Bound)
    requires Valid(env, t, d, Inf, Inf) && OnPath(t, path)
    ensures |path| <= d && Valid(env, PageAt(t, path), d - |path|, lo, hi)
    decreases |path|
  {
    if path == [] {
      lo, hi := Inf, Inf;
    } else {
      lo, hi := PageOk(env, t, d, Init(path));
      var p, i := PageAt(t, Init(path)), Last(path);
      KidOk(env, p, d - |path| + 1, lo, hi, i);
      lo, hi := KidLo(p.seps, lo, i), KidHi(p.seps, hi, i);
    }
  }

  lemma PageShape(env: Env, t: Tree, d: nat, path: Path)
    requires Valid(env, t, d, Inf, Inf) && OnPath(t, path)
    ensures |path| <= d && (PageAt(t, path).Leaf? <==> |path| == d) &&
      NumKeys(PageAt(t, path)) >= MinKeys(PageAt(t, path))
  {
    var lo, hi := PageOk(env, t, d, path);
  }

  // ---------------------------------------------------------------- siblings

  /** The neighbour of child `i` among `n`. */
  function Beside(i: nat, n: nat, right: bool): Option<nat> {
    if right then if i + 1 >= n then None else Some(i + 1)
    else if i == 0 then None else Some(i - 1)
  }

  /** One page to the right or left on the level of the last page; nothing at the end of the level. */
  function Sibling(t: Tree, path: Path, right: bool): Option<Path>
    decreases |path|
  {
    if |path| < 2 then None else
      var up := Init(path);
      var j := Beside(Last(up), NumKeys(PageAt(t, Init(up))), right);
      Enter(t, if j.Some? then Some(Init(up) + [j.value]) else Sibling(t, up, right), right)
  }

  /** Push the page that the moved parent points to. */
  function Enter(t: Tree, moved: Option<Path>, right: bool): Option<Path> {
    if moved.None? then None else Some(moved.value + [Entered(PageAt(t, moved.value), right)])
  }

  /** The index at which a page is entered. */
  function Entered(p: Tree, right: bool): nat {
    if right || NumKeys(p) == 0 then 0 else NumKeys(p) - 1
  }

  lemma KidStart(t: Tree, path: Path, i: nat)
    requires PageAt(t, path).Branch? && i <= |PageAt(t, path).kids|
    ensures Start(t, path + [i]) == Start(t, path) + |Flat(PageAt(t, path).kids[..i])|
    ensures i < |PageAt(t, path).kids| ==> PageAt(t, path + [i]) == PageAt(t, path).kids[i]
    ensures i < |PageAt(t, path).kids| && OnPath(t, path) ==> OnPath(t, path + [i])
  {
    assert Init(path + [i]) == path;
  }

  lemma KidEmpty(kids: seq<Tree>)
    ensures Flat(kids[..0]) == [] && kids[..|kids|] == kids
  {}

  /** Neighbouring children are neighbouring segments; the outer ones share an end with their parent. */
  lemma KidEnds(t: Tree, path: Path, i: nat)
    requires OnPath(t, path) && PageAt(t, path).Branch? && i < |PageAt(t, path).kids|
    ensures Start(t, path + [i]) + Size(t, path + [i]) == Start(t, path + [i + 1])
    ensures i == 0 ==> Start(t, path + [i]) == Start(t, path)
    ensures i + 1 == |PageAt(t, path).kids| ==> Start(t, path + [i + 1]) == Start(t, path) + Size(t, path)
  {
    assert PageAt(t, path).Branch? ==> Items(PageAt(t, path)) == Flat(PageAt(t, path).kids);
    hide PageAt, OnPath, Start, Items, Flat;
    var kids := PageAt(t, path).kids;
    KidStart(t, path, i);
    KidStart(t, path, i + 1);
    KidEmpty(kids);
    FlatSnoc(kids, i);
  }

  /** The segment of the page that `path` points into. */
  ghost predicate Adjacent(t: Tree, from: Path, to: Path, right: bool) {
    if right then Start(t, to) == Start(t, from) + Size(t, from) else Start(t, to) + Size(t, to) == Start(t, from)
  }

  ghost predicate AtEnd(t: Tree, path: Path, right: bool) {
    if right then Start(t, path) + Size(t, path) == |Items(t)| else Start(t, path) == 0
  }

  /** The result of moving to a sibling, or of not finding one. */
  ghost predicate SiblingIs(t: Tree, path: Path, right: bool, r: Option<Path>)
    requires path != []
  {
    match r
    case None => AtEnd(t, Init(path), right)
    case Some(q) =>
      && |q| == |path| && OnPath(t, Init(q)) && Adjacent(t, Init(path), Init(q), right)
      && Last(q) == Entered(PageAt(t, Init(q)), right)
  }

  /**
    A sibling is the adjacent page on the same level, entered at its near end; there is none
    only at the end of the level.
   */
  lemma {:induction false} SiblingOk(env: Env, t: Tree, d: nat, path: Path, right: bool)
    requires Valid(env, t, d, Inf, Inf) && path != [] && OnPath(t, Init(path))
    ensures SiblingIs(t, path, right, Sibling(t, path, right))
    decreases |path|
  {
    if |path| >= 2 {
      var up := Init(path);
      var pre, i := Init(up), Last(up);
      assert up == pre + [i];
      assert OnPath(t, pre) && PageAt(t, pre).Branch? && i < |PageAt(t, pre).kids|;
      hide Valid, Items, Adjacent, AtEnd, OnPath, PageAt, SiblingIs;
      var b := Beside(i, NumKeys(PageAt(t, pre)), right);
      if b.None? {
        SiblingOk(env, t, d, up, right);
        SiblingUp(env, t, d, pre, i, right, Sibling(t, up, right));
        Extended(t, path, right, Sibling(t, up, right));
      } else {
        SiblingBeside(t, pre, i, b.value, right);
        Extended(t, path, right, Some(pre + [b.value]));
      }
    }
  }

  /** From the parent's new position to the path of the sibling itself. */
  lemma Extended(t: Tree, path: Path, right: bool, r: Option<Path>)
    requires path != []
    requires r.Some? ==> |r.value| == |Init(path)| && OnPath(t, r.value) && Adjacent(t, Init(path), r.value, right)
    requires r.None? ==> AtEnd(t, Init(path), right)
    ensures SiblingIs(t, path, right, Enter(t, r, right))
  {
    if r.Some? { assert Init(r.value + [Entered(PageAt(t, r.value), right)]) == r.value; }
  }

  lemma SiblingBeside(t: Tree, pre: Path, i: nat, j: nat, right: bool)
    requires OnPath(t, pre) && PageAt(t, pre).Branch? && i < |PageAt(t, pre).kids| && j < |PageAt(t, pre).kids|
    requires if right then j == i + 1 else i == j + 1
    ensures OnPath(t, pre + [j]) && Adjacent(t, pre + [i], pre + [j], right)
  {
    KidEnds(t, pre, i);
    KidEnds(t, pre, j);
    KidStart(t, pre, j);
  }

  /** The parent moved: entering its sibling at the near end keeps the segments adjacent. */
  lemma SiblingUp(env: Env, t: Tree, d: nat, pre: Path, i: nat, right: bool, r: Option<Path>)
    requires Valid(env, t, d, Inf, Inf) && OnPath(t, pre) && PageAt(t, pre).Branch? && i < |PageAt(t, pre).kids|
    requires Init(pre + [i]) == pre && SiblingIs(t, pre + [i], right, r)
    requires if right then i + 1 == |PageAt(t, pre).kids| else i == 0
    ensures r.Some? ==> |r.value| == |pre| + 1 && OnPath(t, r.value) && Adjacent(t, pre + [i], r.value, right)
    ensures r.None? ==> AtEnd(t, pre + [i], right)
  {
    KidEnds(t, pre, i);
    if r.Some? {
      var q := r.value;
      PageShape(env, t, d, pre);
      PageShape(env, t, d, Init(q));
      hide Valid, Items, Flat;
      assert q == Init(q) + [Last(q)];
      KidStart(t, Init(q), Last(q));
      KidEnds(t, Init(q), Last(q));
      hide Start, PageAt, Size;
    }
  }

  lemma SiblingOf(t: Tree, up: Path, x: nat, right: bool)
    requires up != []
    ensures var j := Beside(Last(up), NumKeys(PageAt(t, Init(up))), right);
      Sibling(t, up + [x], right) ==
        Enter(t, if j.Some? then Some(Init(up) + [j.value]) else Sibling(t, up, right), right)
  {
    assert Init(up + [x]) == up;
  }

  lemma LeftOfBeside(t: Tree, pre: Path, i: nat, x: nat)
    ensures Sibling(t, pre + [i + 1] + [x], false) == Enter(t, Some(pre + [i]), false)
  {
    SiblingOf(t, pre + [i + 1], x, false);
    assert Init(pre + [i + 1]) == pre;
  }

  lemma LeftOfUp(t: Tree, r: Path, up: Path, x: nat)
    requires r != [] && Last(r) == 0 && Sibling(t, r, false) == Some(up)
    ensures Sibling(t, r + [x], false) == Enter(t, Some(up), false)
  {
    SiblingOf(t, r, x, false);
  }

  lemma SnocParts(pre: Path, i: nat)
    ensures Init(pre + [i]) == pre && Last(pre + [i]) == i
  {}

  lemma LeftOfRight(t: Tree, pre: Path, i: nat, x: nat)
    requires i < NumKeys(PageAt(t, pre)) && Sibling(t, pre + [i] + [x], true).Some?
    requires var r := Sibling(t, pre + [i], true);
      r.Some? ==> r.value != [] && Last(r.value) == 0 && Sibling(t, r.value, false) == Enter(t, Some(pre), false)
    ensures Sibling(t, Sibling(t, pre + [i] + [x], true).value, false) == Enter(t, Some(pre + [i]), false)
  {
    hide Sibling, PageAt;
    SnocParts(pre, i);
    SiblingOf(t, pre + [i], x, true);
    if i + 1 >= NumKeys(PageAt(t, pre)) {
      var r := Sibling(t, pre + [i], true).value;
      LeftOfUp(t, r, pre + [i], Entered(PageAt(t, r), true));
    } else {
      LeftOfBeside(t, pre, i, Entered(PageAt(t, pre + [i + 1]), true));
    }
  }

  /** Left undoes right. */
  lemma {:induction false} LeftUndoesRight(env: Env, t: Tree, d: nat, path: Path)
    requires Valid(env, t, d, Inf, Inf) && path != [] && OnPath(t, Init(path)) && Sibling(t, path, true).Some?
    ensures Sibling(t, Sibling(t, path, true).value, false) == Enter(t, Some(Init(path)), false)
    decreases |path|
  {
    assert |path| >= 2;
    hide Valid, Sibling;
    var up := Init(path);
    if Sibling(t, up, true).Some? {
      SiblingOk(env, t, d, up, true);
      LeftUndoesRight(env, t, d, up);
    }
    InitLast(path);
    InitLast(up);
    LeftOfRight(t, Init(up), Last(up), Last(path));
  }
}
