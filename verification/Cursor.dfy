/** A cursor: a stack of pages and indices, moved in place. */
module Cursors {
  import opened Options
  import opened BTree
  import opened BTreeShape
  import opened BTreeOps
  import opened BTreeProofs
  import opened BTreePut
  import opened BTreeDb
  import opened CursorPath

  const CURSOR_STACK := 32

  // ---------------------------------------------------------------- the stack as a value

  /** The first `n` pages are the ones that the first `n - 1` indices lead to. */
  ghost predicate StackOk(t: Tree, pg: seq<Tree>, ki: seq<nat>, n: nat) {
    && 1 <= n <= |pg| == |ki|
    && OnPath(t, ki[..n - 1])
    && forall i :: 0 <= i < n ==> pg[i] == PageAt(t, ki[..i])
  }

  lemma StackPop(t: Tree, pg: seq<Tree>, ki: seq<nat>, n: nat)
    requires StackOk(t, pg, ki, n) && n >= 2
    ensures StackOk(t, pg, ki, n - 1) && OnPath(t, ki[..n - 1]) && Init(ki[..n]) == ki[..n - 1]
    ensures pg[n - 2].Branch? && ki[n - 2] < |pg[n - 2].kids|
  {
    assert Init(ki[..n - 1]) == ki[..n - 2];
  }

  lemma StackMove(t: Tree, pg: seq<Tree>, ki: seq<nat>, n: nat, j: nat)
    requires StackOk(t, pg, ki, n)
    ensures StackOk(t, pg, ki[n - 1 := j], n) && ki[n - 1 := j][..n] == ki[..n - 1] + [j]
  {
    var ki' := ki[n - 1 := j];
    assert ki'[..n - 1] == ki[..n - 1];
    forall i | 0 <= i < n ensures pg[i] == PageAt(t, ki'[..i]) { assert ki'[..i] == ki[..i]; }
  }

  lemma StackPush(t: Tree, pg: seq<Tree>, ki: seq<nat>, n: nat, x: nat)
    requires StackOk(t, pg, ki, n) && n < |pg| && pg[n - 1].Branch? && ki[n - 1] < |pg[n - 1].kids|
    ensures StackOk(t, pg[n := pg[n - 1].kids[ki[n - 1]]], ki[n := x], n + 1)
    ensures ki[n := x][..n + 1] == ki[..n] + [x] && OnPath(t, ki[..n])
    ensures PageAt(t, ki[..n]) == pg[n - 1].kids[ki[n - 1]]
  {
    var pg', ki' := pg[n := pg[n - 1].kids[ki[n - 1]]], ki[n := x];
    assert Init(ki[..n]) == ki[..n - 1];
    assert ki'[..n] == ki[..n];
    forall i | 0 <= i < n + 1 ensures pg'[i] == PageAt(t, ki'[..i]) { assert ki'[..i] == ki[..i]; }
  }

  lemma TopPage(t: Tree, pg: seq<Tree>, ki: seq<nat>, n: nat)
    requires StackOk(t, pg, ki, n)
    ensures Init(ki[..n]) == ki[..n - 1] && Last(ki[..n]) == ki[n - 1] && pg[n - 1] == PageAt(t, ki[..n - 1])
  {}

  lemma LeafTop(env: Env, t: Tree, d: nat, pg: seq<Tree>, ki: seq<nat>, n: nat)
    requires BTree.Valid(env, t, d, Inf, Inf) && StackOk(t, pg, ki, n) && n == d + 1
    ensures pg[n - 1].Leaf? && pg[n - 1].es != [] && SortedEntries(pg[n - 1].es)
    ensures pg[n - 1] == PageAt(t, ki[..n - 1]) && OnPath(t, ki[..n - 1])
    ensures Init(ki[..n]) == ki[..n - 1] && Last(ki[..n]) == ki[n - 1]
  {
    var lo, hi := PageOk(env, t, d, ki[..n - 1]);
  }

  /** The root is the first and the last page of its level. */
  lemma RootSegment(t: Tree, path: Path)
    ensures path == [] ==> Start(t, path) == 0 && AtEnd(t, path, true)
  {}

  lemma LeafExtent(t: Tree, path: Path)
    requires PageAt(t, path).Leaf?
    ensures Size(t, path) == |PageAt(t, path).es|
  {}

  /** A branch that a cursor moved to is entered at one of its children. */
  lemma SiblingPoints(env: Env, t: Tree, d: nat, pg: seq<Tree>, ki: seq<nat>, n: nat, up: Path, right: bool)
    requires BTree.Valid(env, t, d, Inf, Inf) && |up| == n && StackOk(t, pg, ki, n)
    requires n > 0 && OnPath(t, Init(up)) && PageAt(t, Init(up)).Branch? && Sibling(t, up, right) == Some(ki[..n])
    ensures pg[n - 1].Branch? && ki[n - 1] < |pg[n - 1].kids|
  {
    SiblingOk(env, t, d, up, right);
    PageShape(env, t, d, Init(up));
    assert Init(ki[..n]) == ki[..n - 1];
    PageShape(env, t, d, ki[..n - 1]);
  }

  /** One level up, for Sibling. */
  lemma SiblingStep(t: Tree, pg: seq<Tree>, ki: seq<nat>, n: nat, right: bool)
    requires StackOk(t, pg, ki, n) && n >= 2
    ensures n <= |pg| == |ki| && StackOk(t, pg, ki, n - 1) && pg[n - 2].Branch? && ki[n - 2] < |pg[n - 2].kids|
    ensures OnPath(t, Init(ki[..n - 1])) && PageAt(t, Init(ki[..n - 1])) == pg[n - 2] &&
      Init(ki[..n - 1]) == ki[..n - 2]
    ensures var j := Beside(ki[n - 2], NumKeys(pg[n - 2]), right);
      Sibling(t, ki[..n], right) ==
        Enter(t, if j.Some? then Some(ki[..n - 2] + [j.value]) else Sibling(t, ki[..n - 1], right), right)
  {
    StackPop(t, pg, ki, n);
    assert Init(ki[..n - 1]) == ki[..n - 2];
    SiblingOf(t, ki[..n - 1], ki[n - 1], right);
    assert ki[..n - 1] + [ki[n - 1]] == ki[..n];
  }

  /** Position among all entries; the last index may be one past the entries of its leaf. */
  function Position(t: Tree, path: Path): nat
    requires path != []
  {
    Start(t, Init(path)) + Last(path)
  }

  // ---------------------------------------------------------------- searching from the root

  datatype Target = FirstPage | LastPage | PageFor(k: Key)

  /** All entries before `s` are below `k`, all from `e` on above it. */
  ghost predicate Around(items: seq<Entry>, s: nat, e: nat, k: Key) {
    && s <= e <= |items|
    && (s > 0 ==> items[s - 1].key < k)
    && (e < |items| ==> items[e].key > k)
  }

  ghost predicate Near(t: Tree, path: Path, k: Key) {
    Around(Items(t), Start(t, path), Start(t, path) + Size(t, path), k)
  }

  ghost predicate Reached(t: Tree, path: Path, target: Target) {
    match target
    case FirstPage => Start(t, path) == 0
    case LastPage => Start(t, path) + Size(t, path) == |Items(t)|
    case PageFor(k) => Near(t, path, k)
  }

  ghost predicate InRange(target: Target, lo: Bound, hi: Bound) {
    target.PageFor? ==> AtLeast(lo, target.k) && Below(target.k, hi)
  }

  function ChildFor(p: Tree, target: Target): nat
    requires p.Branch?
  {
    match target
    case FirstPage => 0
    case LastPage => if |p.kids| == 0 then 0 else |p.kids| - 1
    case PageFor(k) => KidIndex(p.seps, k)
  }

  lemma ChildReached(env: Env, t: Tree, path: Path, d: nat, lo: Bound, hi: Bound, target: Target)
    requires OnPath(t, path) && Weak(env, PageAt(t, path), d, lo, hi) && PageAt(t, path).Branch? &&
      Reached(t, path, target)
    requires InRange(target, lo, hi)
    ensures var p := PageAt(t, path); var i := ChildFor(p, target);
      && |p.kids| == |p.seps| + 1 && d > 0 && i < |p.kids|
      && Weak(env, p.kids[i], d - 1, KidLo(p.seps, lo, i), KidHi(p.seps, hi, i)) &&
        NumKeys(p.kids[i]) >= MinKeys(p.kids[i])
      && InRange(target, KidLo(p.seps, lo, i), KidHi(p.seps, hi, i))
      && Reached(t, path + [i], target)
  {
    hide PageAt, OnPath, Start, Weak, KidsOk, KidIndex, Items;
    var p := PageAt(t, path);
    var i := ChildFor(p, target);
    WeakShape(env, p, d, lo, hi);
    if target.PageFor? {
      KidIndexOk(p.seps, target.k, lo, hi);
      OuterKids(env, p.seps, p.kids, d - 1, lo, hi, target.k);
      NearChild(t, path, i, target.k);
    } else {
      KidEnds(t, path, i);
    }
    KidOk(env, p, d, lo, hi, i);
  }

  lemma NearChild(t: Tree, path: Path, i: nat, k: Key)
    requires OnPath(t, path) && PageAt(t, path).Branch? && i < |PageAt(t, path).kids| && Near(t, path, k)
    requires var kids := PageAt(t, path).kids; var a, c := Flat(kids[..i]), Flat(kids[i + 1..]);
      && (a == [] || a[|a| - 1].key < k) && (c == [] || c[0].key > k)
    ensures Near(t, path + [i], k)
  {
    hide Items, Flat, PageAt, Start, Size, OnPath, Around, IsSegment;
    var kids := PageAt(t, path).kids;
    KidSegment(t, path, i);
    AroundMiddle(Items(t), Start(t, path), Flat(kids[..i]), Items(kids[i]), Flat(kids[i + 1..]), k);
  }

  /** Where the entries of child `i` lie. */
  lemma KidSegment(t: Tree, path: Path, i: nat)
    requires OnPath(t, path) && PageAt(t, path).Branch? && i < |PageAt(t, path).kids|
    ensures var kids := PageAt(t, path).kids; var a, b, c := Flat(kids[..i]), Items(kids[i]), Flat(kids[i + 1..]);
      && Start(t, path + [i]) == Start(t, path) + |a| && Size(t, path + [i]) == |b| && Size(t, path) == |a + b + c|
      && IsSegment(Items(t), Start(t, path), a + b + c)
  {
    assert Items(PageAt(t, path)) == Flat(PageAt(t, path).kids);
    hide Items, Flat, PageAt, Start, OnPath, IsSegment;
    KidStart(t, path, i);
    KidItems(PageAt(t, path).kids, i);
    Segment(t, path);
  }

  /** Entries under children to the left of the one for `k` are below it, those to the right above. */
  lemma OuterKids(env: Env, seps: seq<Key>, kids: seq<Tree>, d: nat, lo: Bound, hi: Bound, k: Key)
    requires |kids| == |seps| + 1 && KidsOk(env, seps, kids, d, lo, hi) && AtLeast(lo, k) && Below(k, hi)
    ensures var i := KidIndex(seps, k);
      var a, c := Flat(kids[..i]), Flat(kids[i + 1..]);
      (a == [] || a[|a| - 1].key < k) && (c == [] || c[0].key > k)
  {
    var i := KidIndex(seps, k);
    KidIndexOk(seps, k, lo, hi);
    if i > 0 {
      CutLeft(env, seps, kids, d, lo, hi, i);
      FlatOk(env, seps[..i - 1], kids[..i], d, lo, At(seps[i - 1]));
    }
    if i < |seps| {
      CutRight(env, seps, kids, d, lo, hi, i + 1);
      FlatOk(env, seps[i + 1..], kids[i + 1..], d, At(seps[i]), hi);
    }
  }

  /** A middle part of a segment. */
  lemma AroundMiddle(items: seq<Entry>, s: nat, a: seq<Entry>, b: seq<Entry>, c: seq<Entry>, k: Key)
    requires Around(items, s, s + |a + b + c|, k)
    requires IsSegment(items, s, a + b + c)
    requires (a == [] || a[|a| - 1].key < k) && (c == [] || c[0].key > k)
    ensures Around(items, s + |a|, s + |a| + |b|, k)
  {
    assert a != [] ==> (a + b + c)[|a| - 1] == a[|a| - 1];
    assert c != [] ==> (a + b + c)[|a| + |b|] == c[0];
  }

  /** The child to follow. */
  method ChooseChild(p: Tree, target: Target) returns (i: nat)
    requires p.Branch? && |p.kids| == |p.seps| + 1 && p.seps != [] && AscendingFrom(p.seps, 0)
    ensures i == ChildFor(p, target)
  {
    match target
    case FirstPage => i := 0;
    case LastPage => i := |p.kids| - 1;
    case PageFor(k) => i := FollowChild(p.seps, k);
  }

  /** Everything known about the top page on the way down. */
  ghost predicate Descending(
      env: Env, t: Tree, depth: nat, pg: seq<Tree>, ki: seq<nat>, n: nat, target: Target, lo: Bound, hi: Bound) {
    && 1 <= n <= depth && StackOk(t, pg, ki, n)
    && Weak(env, pg[n - 1], depth - n, lo, hi) && NumKeys(pg[n - 1]) >= MinKeys(pg[n - 1])
    && Reached(t, ki[..n - 1], target) && InRange(target, lo, hi)
  }

  lemma DescendValue(
      env: Env, t: Tree, depth: nat, pg: seq<Tree>, ki: seq<nat>, n: nat, target: Target, lo: Bound, hi: Bound)
    requires Descending(env, t, depth, pg, ki, n, target, lo, hi) && n < |pg| && pg[n - 1].Branch?
    ensures var p := pg[n - 1]; var i := ChildFor(p, target);
      && |p.kids| == |p.seps| + 1 && p.seps != [] && AscendingFrom(p.seps, 0) && i < |p.kids| && n < |ki|
      && Descending(env, t, depth, pg[n := p.kids[i]], ki[n - 1 := i][n := 0], n + 1, target, KidLo(p.seps, lo, i),
        KidHi(p.seps, hi, i))
  {
    var p := pg[n - 1];
    var i, path := ChildFor(p, target), ki[..n - 1];
    assert p == PageAt(t, path);
    ChildReached(env, t, path, depth - n, lo, hi, target);
    WeakShape(env, p, depth - n, lo, hi);
    assert SepsWithin(p.seps, lo, hi);
    StackMove(t, pg, ki, n, i);
    StackPush(t, pg, ki[n - 1 := i], n, 0);
    assert ki[n - 1 := i][n := 0][..n] == path + [i];
  }

  // ---------------------------------------------------------------- next and previous entry

  /** A path to a leaf, at an entry of it or just past the last one. */
  ghost predicate LeafPath(t: Tree, d: nat, path: Path) {
    |path| == d + 1 && OnPath(t, Init(path)) && Last(path) <= NumKeys(PageAt(t, Init(path)))
  }

  ghost predicate OnEntry(t: Tree, path: Path) {
    path != [] && Last(path) < NumKeys(PageAt(t, Init(path)))
  }

  /** The cursor is on entry number `p`, which is `e`. */
  ghost predicate Shows(t: Tree, path: Path, p: nat, e: Entry) {
    OnEntry(t, path) && Position(t, path) == p < |Items(t)| && e == Items(t)[p]
  }

  lemma ShowsNext(t: Tree, path: Path, p: nat, e: Entry)
    requires Shows(t, path, p, e)
    ensures p < |Items(t)| && e == Items(t)[p] && NextPosition(t, path) == p + 1
  {}

  function NextPath(t: Tree, path: Path): Option<Path>
    requires path != []
  {
    if Last(path) + 1 >= NumKeys(PageAt(t, Init(path))) then Sibling(t, path, true)
      else Some(Init(path) + [Last(path) + 1])
  }

  function PrevPath(t: Tree, path: Path): Option<Path>
    requires path != []
  {
    if Last(path) == 0 then Sibling(t, path, false) else Some(Init(path) + [Last(path) - 1])
  }

  /** The entry that a path points to, among all entries. */
  lemma EntryAt(env: Env, t: Tree, d: nat, path: Path)
    requires BTree.Valid(env, t, d, Inf, Inf) && LeafPath(t, d, path)
    ensures var p := PageAt(t, Init(path));
      && p.Leaf? && p.es != [] && Size(t, Init(path)) == |p.es| && Position(t, path) <= |Items(t)|
      && (OnEntry(t, path) ==> Position(t, path) < |Items(t)| && Items(t)[Position(t, path)] == p.es[Last(path)])
  {
    PageShape(env, t, d, Init(path));
    Segment(t, Init(path));
  }

  /** The position of the next entry: one further, or the same when the path is past the end of its leaf. */
  function NextPosition(t: Tree, path: Path): nat
    requires path != []
  {
    Position(t, path) + if Last(path) < NumKeys(PageAt(t, Init(path))) then 1 else 0
  }

  lemma NextPathOk(env: Env, t: Tree, d: nat, path: Path)
    requires BTree.Valid(env, t, d, Inf, Inf) && LeafPath(t, d, path)
    ensures var r := NextPath(t, path);
      && (r.None? ==> NextPosition(t, path) == |Items(t)| && AtEnd(t, Init(path), true))
      && (r.Some? ==> LeafPath(t, d, r.value) && OnEntry(t, r.value) && Position(t, r.value) == NextPosition(t, path))
  {
    EntryAt(env, t, d, path);
    SiblingOk(env, t, d, path, true);
    var r := NextPath(t, path);
    if r.Some? {
      assert Last(path) + 1 < NumKeys(PageAt(t, Init(path))) ==> Init(r.value) == Init(path);
      PageShape(env, t, d, Init(r.value));
    }
  }

  lemma PrevPathOk(env: Env, t: Tree, d: nat, path: Path)
    requires BTree.Valid(env, t, d, Inf, Inf) && LeafPath(t, d, path)
    ensures var r := PrevPath(t, path);
      && (r.None? ==> Position(t, path) == 0)
      && (r.Some? ==> LeafPath(t, d, r.value) && OnEntry(t, r.value) && Position(t, r.value) == Position(t, path) - 1)
  {
    EntryAt(env, t, d, path);
    SiblingOk(env, t, d, path, false);
    var r := PrevPath(t, path);
    if r.Some? {
      assert Last(path) > 0 ==> Init(r.value) == Init(path);
      PageShape(env, t, d, Init(r.value));
      Segment(t, Init(r.value));
    }
  }

  /** prev undoes next, down to the indices on every level. */
  lemma PrevUndoesNext(env: Env, t: Tree, d: nat, path: Path)
    requires BTree.Valid(env, t, d, Inf, Inf) && LeafPath(t, d, path) && OnEntry(t, path) && NextPath(t, path).Some?
    ensures PrevPath(t, NextPath(t, path).value) == Some(path)
  {
    EntryAt(env, t, d, path);
    var q := NextPath(t, path).value;
    if Last(path) + 1 >= NumKeys(PageAt(t, Init(path))) {
      SiblingOk(env, t, d, path, true);
      LeftUndoesRight(env, t, d, path);
      assert Init(path) + [Last(path)] == path;
    } else {
      assert Init(q) == Init(path);
      assert Init(path) + [Last(path)] == path;
    }
  }

  // ---------------------------------------------------------------- seeking a key

  /** Whether a seek finds an entry: the first one not below `k`, with that very key if `exactly`. */
  predicate Sought(items: seq<Entry>, k: Key, exactly: bool) {
    EntryIndex(items, k) < |items| && (exactly ==> HasKey(items, k))
  }

  /** `e` is the first of the entries from `k` on, and for an exact seek the one with this key. */
  ghost predicate Answers(items: seq<Entry>, k: Key, exactly: bool, e: Entry) {
    && e in items && e.key >= k && (exactly ==> e.key == k)
    && forall x :: x in items && x.key >= k ==> e.key <= x.key
  }

  lemma SoughtMeans(items: seq<Entry>, k: Key, exactly: bool)
    requires SortedEntries(items)
    ensures Sought(items, k, exactly) ==> Answers(items, k, exactly, items[EntryIndex(items, k)])
    ensures !Sought(items, k, exactly) ==> forall x :: x in items ==> if exactly then x.key != k else x.key < k
  {
    var p := EntryIndex(items, k);
    hide EntryIndex;
    forall x | x in items ensures x.key >= k ==> p < |items| && items[p].key <= x.key {
      var i :| 0 <= i < |items| && items[i] == x;
      if x.key >= k { assert i >= p; }
    }
  }

  lemma IndexIs(items: seq<Entry>, k: Key, p: nat)
    requires SortedEntries(items) && p <= |items| && (p > 0 ==> items[p - 1].key < k) &&
      (p < |items| ==> items[p].key >= k)
    ensures EntryIndex(items, k) == p
  {
  }

  lemma SegmentIndex(items: seq<Entry>, s: nat, es: seq<Entry>, k: Key)
    requires SortedEntries(items) && IsSegment(items, s, es) && Around(items, s, s + |es|, k)
    ensures var i := EntryIndex(es, k);
      && EntryIndex(items, k) == s + i
      && (i < |es| ==> (HasKey(items, k) <==> HasKey(es, k)))
      && (i == |es| ==> !HasKey(items, k))
  {
    var i := EntryIndex(es, k);
    assert i > 0 ==> es[i - 1] == items[s + (i - 1)];
    assert i < |es| ==> es[i] == items[s + i];
    IndexIs(items, k, s + i);
  }

  lemma SegmentBelow(items: seq<Entry>, s: nat, es: seq<Entry>, k: Key)
    requires SortedEntries(items) && IsSegment(items, s, es) && es != [] && s + |es| == |items| && es[|es| - 1].key < k
    ensures EntryIndex(items, k) == |items|
  {
    assert es[|es| - 1] == items[s + (|es| - 1)];
    IndexIs(items, k, |items|);
  }

  lemma SegmentAround(items: seq<Entry>, s: nat, es: seq<Entry>, k: Key)
    requires SortedEntries(items) && IsSegment(items, s, es) && es != []
    requires (s == 0 || es[0].key <= k) && (s + |es| == |items| || k <= es[|es| - 1].key)
    ensures Around(items, s, s + |es|, k)
  {
    assert es[0] == items[s + 0] && es[|es| - 1] == items[s + (|es| - 1)];
  }

  /** On the page for `k`, the place in the page is the place among all entries. */
  lemma SeekHere(env: Env, t: Tree, d: nat, path: Path, k: Key)
    requires BTree.Valid(env, t, d, Inf, Inf) && LeafPath(t, d, path) && Near(t, Init(path), k)
    requires PageAt(t, Init(path)).Leaf? && Last(path) == EntryIndex(PageAt(t, Init(path)).es, k)
    ensures EntryIndex(Items(t), k) == Position(t, path)
    ensures OnEntry(t, path) ==> (HasKey(Items(t), k) <==> HasKey(PageAt(t, Init(path)).es, k))
    ensures !OnEntry(t, path) ==> !HasKey(Items(t), k)
  {
    Segment(t, Init(path));
    ItemsOk(env, t, d, Inf, Inf);
    SegmentIndex(Items(t), Start(t, Init(path)), PageAt(t, Init(path)).es, k);
  }

  /** A page whose keys enclose `k`, or that is the last one, is the page for `k`. */
  lemma NearHere(env: Env, t: Tree, d: nat, path: Path, k: Key)
    requires BTree.Valid(env, t, d, Inf, Inf) && LeafPath(t, d, path)
    requires PageAt(t, Init(path)).Leaf? && PageAt(t, Init(path)).es != []
    requires var es := PageAt(t, Init(path)).es;
      && (Start(t, Init(path)) == 0 || es[0].key <= k)
      && (AtEnd(t, Init(path), true) || k <= es[|es| - 1].key)
    ensures Near(t, Init(path), k)
  {
    Segment(t, Init(path));
    ItemsOk(env, t, d, Inf, Inf);
    SegmentAround(Items(t), Start(t, Init(path)), PageAt(t, Init(path)).es, k);
  }

  /** No page on the stack has a page to its right. */
  ghost predicate NoneToTheRight(pg: seq<Tree>, ki: seq<nat>, n: nat)
    requires n <= |pg| == |ki|
  {
    forall i :: 0 <= i < n - 1 ==> ki[i] + 1 >= NumKeys(pg[i])
  }

  lemma {:induction false} NoneToTheRightIsNone(t: Tree, pg: seq<Tree>, ki: seq<nat>, n: nat)
    requires StackOk(t, pg, ki, n)
    ensures Sibling(t, ki[..n], true).None? <==> NoneToTheRight(pg, ki, n)
    decreases n
  {
    if n >= 2 {
      SiblingStep(t, pg, ki, n, true);
      NoneToTheRightIsNone(t, pg, ki, n - 1);
      hide Sibling, StackOk, PageAt;
    }
  }

  /** What comparing `k` with the keys of the current leaf tells. */
  lemma FastFacts(env: Env, t: Tree, d: nat, path: Path, k: Key)
    requires BTree.Valid(env, t, d, Inf, Inf) && LeafPath(t, d, path) && PageAt(t, Init(path)).Leaf?
    requires var es := PageAt(t, Init(path)).es; es != [] && SortedEntries(es)
    ensures var es := PageAt(t, Init(path)).es;
      && (es[0].key <= k <= es[|es| - 1].key ==> Near(t, Init(path), k))
      && (forall i :: 0 <= i < |es| && es[i].key == k ==> EntryIndex(es, k) == i && HasKey(es, k))
      && (k < es[0].key ==> EntryIndex(es, k) == 0 && !HasKey(es, k))
      && (|path| == 1 && k < es[0].key ==> Near(t, Init(path), k) && !HasKey(Items(t), k))
  {
    var es := PageAt(t, Init(path)).es;
    if es[0].key <= k <= es[|es| - 1].key || (|path| == 1 && k < es[0].key) { NearHere(env, t, d, path, k); }
    forall i | 0 <= i < |es| && es[i].key == k ensures EntryIndex(es, k) == i { IndexIs(es, k, i); }
    if k < es[0].key { IndexIs(es, k, 0); }
  }

  /** Past the last key of the last page there is nothing to find. */
  lemma NoneBeyond(env: Env, t: Tree, d: nat, path: Path, k: Key)
    requires BTree.Valid(env, t, d, Inf, Inf) && LeafPath(t, d, path) && Sibling(t, path, true).None?
    requires PageAt(t, Init(path)).Leaf?
    requires var es := PageAt(t, Init(path)).es; es != [] && es[|es| - 1].key < k
    ensures !Sought(Items(t), k, false)
  {
    SiblingOk(env, t, d, path, true);
    Segment(t, Init(path));
    ItemsOk(env, t, d, Inf, Inf);
    SegmentBelow(Items(t), Start(t, Init(path)), PageAt(t, Init(path)).es, k);
  }

  /** mdb_node_search on a leaf. */
  method SearchLeaf(es: seq<Entry>, k: Key) returns (i: nat, exact: bool)
    requires SortedEntries(es)
    ensures i == EntryIndex(es, k) <= |es| && (exact <==> HasKey(es, k))
  {
    i, exact := NodeSearch(KeysOf(es), 0, k);
    IndexIs(es, k, i);
  }

  class Cursor {
    const root: Option<Tree>
    const pg: array<Tree>
    const ki: array<nat>
    var snum: nat
    var initialized: bool  // C_INITIALIZED
    var eof: bool          // C_EOF
    ghost const env: Env
    ghost const depth: nat  // md_depth

    ghost predicate Shaped()
      reads this
    {
      && pg.Length == ki.Length == CURSOR_STACK && depth <= CURSOR_STACK
      && (root.Some? ==> depth > 0 && BTree.Valid(env, root.value, depth - 1, Inf, Inf))
    }

    ghost function Path(): CursorPath.Path
      reads this, ki
      requires snum <= ki.Length
    {
      ki[..snum]
    }

    /** An initialized cursor is on a leaf, at an entry or just past the last one. */
    ghost predicate Valid()
      reads this, pg, ki
    {
      && Shaped() && (eof ==> initialized)
      && (initialized ==>
            && root.Some? && StackOk(root.value, pg[..], ki[..], snum) && LeafPath(root.value, depth - 1, Path())
            && (eof ==> AtEnd(root.value, Init(Path()), true)))
    }

    /** On a leaf, wherever the index on it stands. */
    ghost predicate Placed()
      reads this, pg, ki
    {
      && Shaped() && initialized && root.Some? && snum == depth && StackOk(root.value, pg[..], ki[..], snum)
      && (eof ==> AtEnd(root.value, ki[..snum - 1], true))
    }

    lemma ValidPlaced()
      requires Valid() && initialized
      ensures Placed() && snum <= ki.Length == pg.Length && Init(Path()) == ki[..snum - 1]
    {
      TopPage(root.value, pg[..], ki[..], snum);
    }

    constructor (root: Option<Tree>, ghost env: Env, ghost depth: nat)
      requires depth <= CURSOR_STACK
      requires root.Some? ==> depth > 0 && BTree.Valid(env, root.value, depth - 1, Inf, Inf)
      ensures Valid() && !initialized && this.root == root && this.env == env && this.depth == depth && fresh(pg) &&
        fresh(ki)
    {
      this.root := root;
      pg := new Tree[CURSOR_STACK](_ => Leaf([]));
      ki := new nat[CURSOR_STACK](_ => 0);
      snum, initialized, eof := 0, false, false;
      this.env, this.depth := env, depth;
    }

    ghost predicate Stacked()
      reads this, pg, ki
    {
      Shaped() && root.Some? && StackOk(root.value, pg[..], ki[..], snum)
    }

    /** mdb_cursor_pop, to a branch that has a child under its index. */
    method Pop(ghost right: bool)
      requires Stacked() && snum >= 2
      modifies this`snum
      ensures snum == old(snum) - 1 >= 1 && snum < ki.Length && Stacked() && OnBranch() && Path() == Init(old(Path()))
      ensures OnPath(root.value, Init(Path())) && PageAt(root.value, Init(Path())).Branch?
      ensures var j := Beside(ki[snum - 1], NumKeys(pg[snum - 1]), right);
        CursorPath.Sibling(root.value, old(Path()), right)
        == Enter(root.value, if j.Some? then Some(ki[..snum - 1] + [j.value])
          else CursorPath.Sibling(root.value, Path(), right), right)
    {
      hide CursorPath.Sibling, PageAt, OnPath, Enter, BTree.Valid, StackOk;
      SiblingStep(root.value, pg[..], ki[..], snum, right);
      snum := snum - 1;
    }

    ghost predicate OnBranch()
      reads this, pg, ki
    {
      1 <= snum <= ki.Length == pg.Length && pg[snum - 1].Branch? && ki[snum - 1] < |pg[snum - 1].kids|
    }

    /**
      mdb_cursor_sibling: move to the adjacent page of the same level; when there is none, the
      whole stack is as it was.
     */
    method Sibling(right: bool) returns (found: bool)
      requires Stacked()
      modifies this`snum, pg, ki
      ensures snum == old(snum)
      ensures found <==> CursorPath.Sibling(root.value, old(ki[..snum]), right).Some?
      ensures !found ==> ki[..] == old(ki[..]) && pg[..] == old(pg[..])
      ensures found ==> Stacked() && CursorPath.Sibling(root.value, old(ki[..snum]), right) == Some(ki[..snum])
      decreases snum, 0
    {
      if snum < 2 { return false; }
      hide CursorPath.Sibling, PageAt, OnPath, Enter, StackOk, Shaped, OnBranch;
      Pop(right);
      found := MoveParent(right);
      if !found {
        snum := snum + 1;
        return;
      }
      Push(right);
    }

    /** Move the index of the parent, or the parent itself to its own sibling. */
    method MoveParent(right: bool) returns (found: bool)
      requires Stacked() && OnBranch() && OnPath(root.value, Init(Path())) && PageAt(root.value, Init(Path())).Branch?
      modifies this`snum, pg, ki
      ensures snum == old(snum)
      ensures var j := Beside(old(ki[snum - 1]), NumKeys(old(pg[snum - 1])), right);
        (if found then Some(ki[..snum]) else None)
        == if j.Some? then Some(old(ki[..snum - 1]) + [j.value])
          else CursorPath.Sibling(root.value, old(ki[..snum]), right)
      ensures found ==> Stacked() && OnBranch()
      ensures !found ==> ki[..] == old(ki[..]) && pg[..] == old(pg[..])
      decreases snum, 1
    {
      hide CursorPath.Sibling, PageAt, OnPath, StackOk, Shaped;
      ghost var up := Path();
      var top := snum - 1;
      if if right then ki[top] + 1 >= NumKeys(pg[top]) else ki[top] == 0 {
        found := Sibling(right);
        if found { Points(up, right); }
      } else {
        SetTop(if right then ki[top] + 1 else ki[top] - 1);
        found := true;
      }
    }

    /** After a move of the parent, its index points to a child. */
    lemma Points(up: CursorPath.Path, right: bool)
      requires Stacked() && |up| == snum && OnPath(root.value, Init(up)) && PageAt(root.value, Init(up)).Branch?
      requires CursorPath.Sibling(root.value, up, right) == Some(Path())
      ensures OnBranch()
    {
      SiblingPoints(env, root.value, depth - 1, pg[..], ki[..], snum, up, right);
    }

    /** Change the top index. */
    method SetTop(j: nat)
      requires Stacked()
      modifies ki
      ensures Stacked() && ki[..snum] == old(ki[..snum - 1]) + [j] && ki[snum - 1] == j
    {
      hide BTree.Valid, OnPath, PageAt;
      StackMove(root.value, pg[..], ki[..], snum, j);
      ki[snum - 1] := j;
      assert ki[..] == old(ki[..])[snum - 1 := j];
    }

    /** Push the child that the top index points to. */
    method Push(right: bool)
      requires Stacked() && snum < ki.Length && OnBranch()
      modifies this`snum, pg, ki
      ensures snum == old(snum) + 1 && Stacked()
      ensures Enter(root.value, Some(old(ki[..snum])), right) == Some(ki[..snum])
    {
      var mp := pg[snum - 1].kids[ki[snum - 1]];
      var x := if right || NumKeys(mp) == 0 then 0 else NumKeys(mp) - 1;
      StackPush(root.value, pg[..], ki[..], snum, x);
      pg[snum] := mp;
      ki[snum] := x;
      snum := snum + 1;
      assert pg[..] == old(pg[..])[snum - 1 := mp] && ki[..] == old(ki[..])[snum - 1 := x];
      hide StackOk;
    }

    ghost predicate OnTheWay(target: Target, lo: Bound, hi: Bound)
      reads this, pg, ki
    {
      Shaped() && root.Some? && Descending(env, root.value, depth, pg[..], ki[..], snum, target, lo, hi)
    }

    /** One turn of the loop in mdb_page_search_root. */
    method DescendOne(target: Target, ghost lo: Bound, ghost hi: Bound) returns (ghost lo': Bound, ghost hi': Bound)
      requires OnTheWay(target, lo, hi) && 1 <= snum < CURSOR_STACK && pg[snum - 1].Branch?
      modifies this`snum, pg, ki
      ensures snum == old(snum) + 1 && OnTheWay(target, lo', hi')
    {
      var p, top := pg[snum - 1], snum - 1;
      DescendValue(env, root.value, depth, pg[..], ki[..], snum, target, lo, hi);
      hide Descending, Weak, BTree.Valid;
      var i := ChooseChild(p, target);
      lo', hi' := KidLo(p.seps, lo, i), KidHi(p.seps, hi, i);
      ki[top] := i;
      pg[snum], ki[snum], snum := p.kids[i], 0, snum + 1;
      assert pg[..] == old(pg[..])[top + 1 := p.kids[i]];
      assert ki[..] == old(ki[..])[top := i][top + 1 := 0];
    }

    /** mdb_page_search: from the root down to a leaf. */
    method PageSearch(target: Target) returns (found: bool)
      requires Shaped()
      modifies this, pg, ki
      ensures found <==> root.Some?
      ensures found ==> Placed() && !eof && Reached(root.value, ki[..snum - 1], target)
      ensures !found ==> unchanged(this) && unchanged(pg) && unchanged(ki)
    {
      if root.None? { return false; }
      pg[0], snum := root.value, 1;
      ghost var lo, hi := Inf, Inf;
      assert ki[..0] == [];
      while pg[snum - 1].Branch?
        invariant 1 <= snum <= depth && OnTheWay(target, lo, hi)
        decreases depth - snum
      {
        WeakShape(env, pg[snum - 1], depth - snum, lo, hi);
        lo, hi := DescendOne(target, lo, hi);
      }
      initialized, eof := true, false;
      return true;
    }

    /** Go to entry `i` of the leaf. */
    method Settle(i: nat, end: bool) returns (e: Entry)
      requires Placed() && i < NumKeys(pg[snum - 1]) && (end ==> AtEnd(root.value, ki[..snum - 1], true))
      modifies this`eof, ki
      ensures Valid() && eof == end
      ensures Position(root.value, Path()) == Start(root.value, old(ki[..snum - 1])) + i
      ensures Shows(root.value, Path(), Position(root.value, Path()), e)
    {
      hide BTree.Valid, StackOk, PageAt, OnPath, Start, Items, AtEnd;
      MoveTo(i);
      eof := end;
      e := Here();
    }

    /** mdb_cursor_first */
    method First() returns (found: bool, e: Entry)
      requires Valid()
      modifies this, pg, ki
      ensures Valid() && (found <==> root.Some?)
      ensures found ==> initialized && !eof && Shows(root.value, Path(), 0, e)
    {
      hide BTree.Valid, StackOk, PageAt, OnPath, Start, Items, LeafPath;
      e := Entry(0, []);
      if initialized { ValidPlaced(); }
      if !initialized || snum > 1 {
        found := PageSearch(FirstPage);
        if !found { return; }
      }
      RootSegment(root.value, ki[..snum - 1]);
      LeafTop(env, root.value, depth - 1, pg[..], ki[..], snum);
      hide Reached;
      e := Settle(0, false);
      found := true;
    }

    /** mdb_cursor_last */
    method Last() returns (found: bool, e: Entry)
      requires Valid()
      modifies this, pg, ki
      ensures Valid() && (found <==> initialized) && (found <==> root.Some?)
      ensures found ==>
        eof && Shows(root.value, Path(), Position(root.value, Path()), e) &&
        Position(root.value, Path()) + 1 == |Items(root.value)|
    {
      hide BTree.Valid, StackOk, PageAt, OnPath, Start, Items, LeafPath;
      e := Entry(0, []);
      if initialized { ValidPlaced(); }
      if !eof && (!initialized || snum > 1) {
        found := PageSearch(LastPage);
        if !found { return; }
      }
      RootSegment(root.value, ki[..snum - 1]);
      LeafTop(env, root.value, depth - 1, pg[..], ki[..], snum);
      LeafExtent(root.value, ki[..snum - 1]);
      e := Settle(|pg[snum - 1].es| - 1, true);
      found := true;
    }

    /** The entry under the cursor. */
    method Here() returns (e: Entry)
      requires Valid() && initialized && OnEntry(root.value, Path())
      ensures Shows(root.value, Path(), Position(root.value, Path()), e)
    {
      TopPage(root.value, pg[..], ki[..], snum);
      EntryAt(env, root.value, depth - 1, Path());
      e := pg[snum - 1].es[ki[snum - 1]];
    }

    /** Set the index on the leaf. */
    method MoveTo(i: nat)
      requires Placed() && i <= NumKeys(pg[snum - 1])
      modifies ki
      ensures Valid() && Path() == old(ki[..snum - 1]) + [i] && Init(Path()) == old(ki[..snum - 1]) &&
        CursorPath.Last(Path()) == i && pg[snum - 1] == PageAt(root.value, Init(Path()))
    {
      hide BTree.Valid, OnPath, PageAt;
      ghost var pre := ki[..snum - 1];
      assert OnPath(root.value, pre) && pg[snum - 1] == PageAt(root.value, pre) && snum <= ki.Length;
      hide StackOk;
      SetTop(i);
      SnocParts(pre, i);
    }

    /** Read the entry under the cursor, which is not at the end of the data. */
    method Arrive() returns (e: Entry)
      requires Valid() && initialized && OnEntry(root.value, Path())
      modifies this`eof
      ensures Valid() && !eof && Shows(root.value, Path(), Position(root.value, Path()), e)
    {
      hide BTree.Valid, StackOk, LeafPath, OnEntry, AtEnd, Position;
      e := Here();
      eof := false;
    }

    /** One step right, to the next page at the end of a leaf; `mark` sets C_EOF if there is none. */
    method StepRight(mark: bool) returns (found: bool)
      requires Valid() && initialized
      modifies this`snum, this`eof, pg, ki
      ensures Valid()
      ensures !found ==> Path() == old(Path())
      ensures found <==> NextPath(root.value, old(Path())).Some?
      ensures found ==> NextPath(root.value, old(Path())) == Some(Path())
      ensures eof == if found then false else mark || old(eof)
    {
      NextPathOk(env, root.value, depth - 1, Path());
      TopPage(root.value, pg[..], ki[..], snum);
      hide BTree.Valid, StackOk, PageAt, OnPath, Start, Items, AtEnd;
      if ki[snum - 1] + 1 >= NumKeys(pg[snum - 1]) {
        found := Sibling(true);
        if found { eof := false; } else if mark { eof := true; }
      } else {
        MoveTo(ki[snum - 1] + 1);
        eof, found := false, true;
      }
    }

    /** mdb_cursor_next: the entry after this one; the cursor stays where it is when there is none. */
    method Next() returns (found: bool, e: Entry)
      requires Valid() && initialized
      modifies this, pg, ki
      ensures Valid() && initialized && (found <==> !eof)
      ensures found <==> !old(eof) && NextPosition(root.value, old(Path())) < |Items(root.value)|
      ensures found ==> NextPath(root.value, old(Path())) == Some(Path())
      ensures found ==> Shows(root.value, Path(), NextPosition(root.value, old(Path())), e)
      ensures !found ==> Path() == old(Path())
    {
      e := Entry(0, []);
      found := false;
      if eof { return; }
      ghost var path := Path();
      NextPathOk(env, root.value, depth - 1, path);
      hide BTree.Valid, StackOk, PageAt, OnPath, Start, Items, AtEnd, LeafPath, Valid;
      found := StepRight(true);
      if found { e := Arrive(); }
    }

    /** mdb_cursor_prev */
    method Prev() returns (found: bool, e: Entry)
      requires Valid() && initialized
      modifies this, pg, ki
      ensures Valid() && initialized
      ensures found <==> Position(root.value, old(Path())) > 0
      ensures found ==> !eof && PrevPath(root.value, old(Path())) == Some(Path())
      ensures found ==> Shows(root.value, Path(), Position(root.value, old(Path())) - 1, e)
      ensures !found ==> Path() == old(Path()) && eof == old(eof)
    {
      e := Entry(0, []);
      PrevPathOk(env, root.value, depth - 1, Path());
      hide BTree.Valid, StackOk, PageAt, OnPath, Start, Items, AtEnd, LeafPath, Valid;
      found := StepLeft();
      if found { e := Arrive(); }
    }

    /** One step left, to the last entry of the previous page at the start of a leaf. */
    method StepLeft() returns (found: bool)
      requires Valid() && initialized
      modifies this`snum, this`eof, pg, ki
      ensures Valid()
      ensures !found ==> Path() == old(Path()) && eof == old(eof)
      ensures found <==> PrevPath(root.value, old(Path())).Some?
      ensures found ==> PrevPath(root.value, old(Path())) == Some(Path()) && !eof
    {
      PrevPathOk(env, root.value, depth - 1, Path());
      TopPage(root.value, pg[..], ki[..], snum);
      hide BTree.Valid, StackOk, PageAt, OnPath, Start, Items, AtEnd;
      if ki[snum - 1] == 0 {
        found := Sibling(false);
        if found { eof := false; }
      } else {
        MoveTo(ki[snum - 1] - 1);
        eof, found := false, true;
      }
    }

    /** The end of mdb_cursor_set, on the page for `k`: search it, or go on to the next page. */
    method SeekOnPage(k: Key, exactly: bool) returns (found: bool, e: Entry)
      requires Placed() && Near(root.value, ki[..snum - 1], k)
      modifies this, pg, ki
      ensures Valid() && initialized
      ensures found <==> Sought(Items(root.value), k, exactly)
      ensures found ==> !eof && Shows(root.value, Path(), EntryIndex(Items(root.value), k), e)
    {
      hide BTree.Valid, StackOk, PageAt, OnPath, Start, Items, Near, AtEnd;
      e, found := Entry(0, []), false;
      ghost var t := root.value;
      LeafTop(env, t, depth - 1, pg[..], ki[..], snum);
      var es := pg[snum - 1].es;
      var i, exact := SearchLeaf(es, k);
      hide HasKey, EntryIndex;
      MoveTo(i);
      SeekHere(env, t, depth - 1, Path(), k);
      NextPathOk(env, t, depth - 1, Path());
      hide LeafPath, Valid, Placed;
      if exactly && !exact { return; }
      if i == |es| {
        found := StepRight(false);
        if !found { return; }
      }
      e := Arrive();
      found := true;
    }

    /** On the page for `k`: its place there is `i`. */
    method FoundAt(i: nat, k: Key) returns (e: Entry)
      requires Placed() && Near(root.value, ki[..snum - 1], k) && pg[snum - 1].Leaf?
      requires i < |pg[snum - 1].es| && EntryIndex(pg[snum - 1].es, k) == i
      modifies this`eof, ki
      ensures Valid() && !eof && Shows(root.value, Path(), EntryIndex(Items(root.value), k), e)
      ensures HasKey(Items(root.value), k) <==> HasKey(old(pg[snum - 1].es), k)
    {
      hide BTree.Valid, StackOk, PageAt, OnPath, Start, Items, EntryIndex;
      MoveTo(i);
      SeekHere(env, root.value, depth - 1, Path(), k);
      e := Arrive();
    }

    /** Whether any page on the stack has a page to its right. */
    method RightSiblings() returns (any: bool)
      requires Shaped() && root.Some? && StackOk(root.value, pg[..], ki[..], snum)
      ensures any <==> !NoneToTheRight(pg[..], ki[..], snum)
    {
      var i := 0;
      while i < snum - 1
        invariant 0 <= i <= snum - 1
        invariant forall j :: 0 <= j < i ==> ki[j] + 1 >= NumKeys(pg[j])
      {
        if ki[i] + 1 < NumKeys(pg[i]) { return true; }
        i := i + 1;
      }
      return false;
    }

    /** The start of mdb_cursor_set: see whether the cursor is already on the right page. */
    method SeekFast(k: Key, exactly: bool) returns (done: bool, found: bool, e: Entry)
      requires Valid() && initialized
      modifies this, pg, ki
      ensures Valid() && initialized
      ensures done ==> (found <==> Sought(Items(root.value), k, exactly))
      ensures done && found ==> !eof && Shows(root.value, Path(), EntryIndex(Items(root.value), k), e)
    {
      hide BTree.Valid, StackOk, PageAt, OnPath, Start, Items, EntryIndex, HasKey, LeafPath, AtEnd, Near;
      e, done, found := Entry(0, []), true, false;
      ValidPlaced();
      ghost var t, path := root.value, Path();
      LeafTop(env, t, depth - 1, pg[..], ki[..], snum);
      var es, top := pg[snum - 1].es, snum - 1;
      FastFacts(env, t, depth - 1, path, k);
      if k == es[0].key {
        e := FoundAt(0, k);
        found := true;
        return;
      }
      if k > es[0].key {
        if |es| > 1 {
          if k == es[|es| - 1].key {
            e := FoundAt(|es| - 1, k);
            found := true;
            return;
          }
          if k < es[|es| - 1].key {
            if ki[top] < |es| && es[ki[top]].key == k {
              e := FoundAt(ki[top], k);
              found := true;
              return;
            }
            found, e := SeekOnPage(k, exactly);
            return;
          }
        }
        NoneToTheRightIsNone(t, pg[..], ki[..], snum);
        var any := RightSiblings();
        if !any {
          NoneBeyond(env, t, depth - 1, path, k);
          MoveTo(|es|);
          return;
        }
      }
      if top == 0 {
        if !exactly {
          e := FoundAt(0, k);
          found := true;
          return;
        }
        MoveTo(0);
        return;
      }
      done := false;
    }

    ghost function Entries(): seq<Entry> {
      if root.None? then [] else Items(root.value)
    }

    /**
      mdb_cursor_set, for MDB_SET (`exactly`) and MDB_SET_RANGE: whichever shortcut is taken, the
      answer is that of the sorted entries.
     */
    method Set(k: Key, exactly: bool) returns (found: bool, e: Entry)
      requires Valid()
      modifies this, pg, ki
      ensures Valid()
      ensures found <==> Sought(Entries(), k, exactly)
      ensures found ==> initialized && !eof && Shows(root.value, Path(), EntryIndex(Entries(), k), e)
      ensures found ==> Answers(Entries(), k, exactly, e)
      ensures !found ==> forall x :: x in Entries() ==> if exactly then x.key != k else x.key < k
    {
      EntriesSorted();
      SoughtMeans(Entries(), k, exactly);
      hide Answers, Sought;
      if initialized {
        var done;
        done, found, e := SeekFast(k, exactly);
        if done { return; }
      }
      e := Entry(0, []);
      found := PageSearch(PageFor(k));
      if found { found, e := SeekOnPage(k, exactly); }
    }

    /** The cursor is on entry number `p`, and not past the end. */
    ghost predicate Showing(p: nat, e: Entry)
      reads this, pg, ki
    {
      Valid() && initialized && !eof && Shows(root.value, Path(), p, e) && p < |Entries()| && e == Entries()[p]
    }

    /** The entry after number `p`. */
    method Following(ghost p: nat, ghost e0: Entry) returns (found: bool, e: Entry)
      requires Showing(p, e0)
      modifies this, pg, ki
      ensures Valid() && (found <==> p + 1 < |Entries()|) && (found ==> Showing(p + 1, e) && e == Entries()[p + 1])
    {
      assert snum <= ki.Length;
      hide BTree.Valid, StackOk, LeafPath, AtEnd, Items;
      ShowsNext(root.value, Path(), p, e0);
      found, e := Next();
    }

    /** First, then next until MDB_NOTFOUND, visits every entry once, in order. */
    method Scan() returns (out: seq<Entry>)
      requires Valid()
      modifies this, pg, ki
      ensures Valid() && out == Entries() && SortedEntries(out)
    {
      hide Valid, Showing, SortedEntries, Entries;
      EntriesSorted();
      ghost var all := Entries();
      var found, e := Opening();
      out := [];
      while found
        invariant Valid() && Entries() == all
        invariant |out| <= |all| && out == all[..|out|]
        invariant found ==> |out| < |all| && e == all[|out|] && Showing(|out|, e)
        invariant !found ==> |out| == |all|
        decreases |all| - |out|, found
      {
        ghost var e0 := e;
        out := out + [e];
        found, e := Following(|out| - 1, e0);
      }
    }

    lemma EntriesSorted()
      requires Valid()
      ensures SortedEntries(Entries())
    {
      if root.Some? { ItemsOk(env, root.value, depth - 1, Inf, Inf); }
    }

    /** The first entry, if there is one. */
    method Opening() returns (found: bool, e: Entry)
      requires Valid()
      modifies this, pg, ki
      ensures Valid() && (found <==> Entries() != []) && (found ==> Showing(0, e) && e == Entries()[0])
    {
      hide StackOk, LeafPath, AtEnd;
      if root.Some? { ItemsOk(env, root.value, depth - 1, Inf, Inf); }
      hide BTree.Valid;
      found, e := First();
    }
  }
}
