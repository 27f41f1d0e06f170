/**
  The compacting copy: a post-order walk writes every page of a database and gives it a new
  number, its place in the new file; references in pages written later use the new numbers.
 */
module CompactCopy {

  const P_INVALID: nat := 0xFFFF_FFFF_FFFF_FFFF
  const NUM_METAS: nat := 2

  /** A page of the source with everything below it; `pgno` is its number in the source. */
  datatype Tree =
    | Leaf(pgno: nat, items: seq<Item>)
    | Branch(pgno: nat, keys: seq<int>, kids: seq<Tree>)

  /** A leaf node: data in place, data on overflow pages, or a named database. */
  datatype Item = Plain(v: int) | Big(pgno: nat, pages: nat, v: int) | Sub(v: int, db: Db)

  datatype Db = Empty | Root(t: Tree)

  /** A page as written: references are numbers of pages in the new file. */
  datatype Out =
    | LeafPg(src: nat, refs: seq<Ref>)
    | BranchPg(src: nat, keys: seq<int>, kids: seq<nat>)
    | OverPg(src: nat, pages: nat, v: int)

  datatype Ref = PlainRef(v: int) | BigRef(pg: nat) | SubRef(v: int, root: nat)

  /** Branches have children, and overflow runs pages. */
  predicate Good(t: Tree)
    decreases t, 0
  {
    match t
    case Leaf(_, items) => GoodItems(items)
    case Branch(_, _, kids) => kids != [] && GoodKids(kids)
  }

  predicate GoodKids(kids: seq<Tree>)
    decreases kids, 1
  {
    forall i :: 0 <= i < |kids| ==> Good(kids[i])
  }

  predicate GoodItem(item: Item)
    decreases item, 1
  {
    match item
    case Plain(_) => true
    case Big(_, pages, _) => pages > 0
    case Sub(_, db) => db.Root? ==> Good(db.t)
  }

  predicate GoodItems(items: seq<Item>)
    decreases items, 2
  {
    forall i :: 0 <= i < |items| ==> GoodItem(items[i])
  }

  // ---------------------------------------------------------------- the walk

  datatype Walked = Walked(out: seq<Out>, num: nat, next: nat)
  datatype WalkedKids = WalkedKids(out: seq<Out>, nums: seq<nat>, next: nat)
  datatype WalkedItems = WalkedItems(out: seq<Out>, refs: seq<Ref>, next: nat)

  /** Pages written for a tree, the number of its root, and the next number. */
  function Walk(t: Tree, next: nat): Walked
    decreases t, 0
  {
    match t
    case Leaf(pgno, items) =>
      var w := WalkItems(items, next);
      Walked(w.out + [LeafPg(pgno, w.refs)], w.next, w.next + 1)
    case Branch(pgno, keys, kids) =>
      var w := WalkKids(kids, next);
      Walked(w.out + [BranchPg(pgno, keys, w.nums)], w.next, w.next + 1)
  }

  function WalkKids(kids: seq<Tree>, next: nat): WalkedKids
    decreases kids, 1
  {
    if kids == [] then WalkedKids([], [], next) else
      var a := Walk(kids[0], next);
      var b := WalkKids(kids[1..], a.next);
      WalkedKids(a.out + b.out, [a.num] + b.nums, b.next)
  }

  function WalkItem(item: Item, next: nat): WalkedItems
    decreases item, 1
  {
    match item
    case Plain(v) => WalkedItems([], [PlainRef(v)], next)
    case Big(pgno, pages, v) => WalkedItems([OverPg(pgno, pages, v)], [BigRef(next)], next + pages)
    case Sub(v, db) =>
      if db.Empty? then WalkedItems([], [SubRef(v, P_INVALID)], next) else
        var w := Walk(db.t, next);
        WalkedItems(w.out, [SubRef(v, w.num)], w.next)
  }

  function WalkItems(items: seq<Item>, next: nat): WalkedItems
    decreases items, 1
  {
    if items == [] then WalkedItems([], [], next) else
      var a := WalkItem(items[0], next);
      var b := WalkItems(items[1..], a.next);
      WalkedItems(a.out + b.out, a.refs + b.refs, b.next)
  }

  // ---------------------------------------------------------------- what is written, and where

  /** Pages in the file that an entry takes: overflow pages follow their first one. */
  function Len(o: Out): nat {
    if o.OverPg? then o.pages else 1
  }

  function TotalLen(out: seq<Out>): nat {
    if out == [] then 0 else Len(out[0]) + TotalLen(out[1..])
  }

  lemma {:induction false} TotalLenConcat(a: seq<Out>, b: seq<Out>)
    ensures TotalLen(a + b) == TotalLen(a) + TotalLen(b)
    decreases a
  {
    if a == [] {
      assert a + b == b;
    } else {
      assert (a + b)[1..] == a[1..] + b;
      TotalLenConcat(a[1..], b);
    }
  }

  /** Numbers run on: what is written after number `next` takes the file up to the new `next`. */
  lemma {:induction false} WalkLen(t: Tree, next: nat)
    requires Good(t)
    ensures Walk(t, next).next == next + TotalLen(Walk(t, next).out) && Walk(t, next).num + 1 == Walk(t, next).next
    decreases t, 0
  {
    match t
    case Leaf(pgno, items) =>
      var w := WalkItems(items, next);
      WalkItemsLen(items, next);
      TotalLenConcat(w.out, [LeafPg(pgno, w.refs)]);
    case Branch(pgno, keys, kids) =>
      var w := WalkKids(kids, next);
      WalkKidsLen(kids, next);
      TotalLenConcat(w.out, [BranchPg(pgno, keys, w.nums)]);
  }

  lemma {:induction false} WalkKidsLen(kids: seq<Tree>, next: nat)
    requires GoodKids(kids)
    ensures WalkKids(kids, next).next == next + TotalLen(WalkKids(kids, next).out) &&
      |WalkKids(kids, next).nums| == |kids|
    decreases kids, 1
  {
    if kids != [] {
      var a := Walk(kids[0], next);
      WalkLen(kids[0], next);
      WalkKidsLen(kids[1..], a.next);
      TotalLenConcat(a.out, WalkKids(kids[1..], a.next).out);
    }
  }

  lemma {:induction false} WalkItemLen(item: Item, next: nat)
    requires GoodItem(item)
    ensures WalkItem(item, next).next == next + TotalLen(WalkItem(item, next).out) && |WalkItem(item, next).refs| == 1
    decreases item, 1
  {
    match item
    case Plain(_) =>
    case Big(pgno, pages, v) => assert TotalLen([OverPg(pgno, pages, v)][1..]) == 0;
    case Sub(_, db) => if db.Root? { WalkLen(db.t, next); }
  }

  lemma {:induction false} WalkItemsLen(items: seq<Item>, next: nat)
    requires GoodItems(items)
    ensures WalkItems(items, next).next == next + TotalLen(WalkItems(items, next).out) &&
      |WalkItems(items, next).refs| == |items|
    decreases items, 1
  {
    if items != [] {
      var a := WalkItem(items[0], next);
      WalkItemLen(items[0], next);
      WalkItemsLen(items[1..], a.next);
      TotalLenConcat(a.out, WalkItems(items[1..], a.next).out);
    }
  }

  predicate Positive(out: seq<Out>) {
    forall i :: 0 <= i < |out| ==> Len(out[i]) > 0
  }

  lemma {:induction false} WalkPositive(t: Tree, next: nat)
    requires Good(t)
    ensures Positive(Walk(t, next).out)
    decreases t, 0
  {
    match t
    case Leaf(_, items) => WalkItemsPositive(items, next);
    case Branch(_, _, kids) => WalkKidsPositive(kids, next);
  }

  lemma {:induction false} WalkKidsPositive(kids: seq<Tree>, next: nat)
    requires GoodKids(kids)
    ensures Positive(WalkKids(kids, next).out)
    decreases kids, 1
  {
    if kids != [] {
      WalkPositive(kids[0], next);
      WalkKidsPositive(kids[1..], Walk(kids[0], next).next);
    }
  }

  lemma {:induction false} WalkItemPositive(item: Item, next: nat)
    requires GoodItem(item)
    ensures Positive(WalkItem(item, next).out)
    decreases item, 1
  {
    if item.Sub? && item.db.Root? { WalkPositive(item.db.t, next); }
  }

  lemma {:induction false} WalkItemsPositive(items: seq<Item>, next: nat)
    requires GoodItems(items)
    ensures Positive(WalkItems(items, next).out)
    decreases items, 2
  {
    if items != [] {
      WalkItemPositive(items[0], next);
      WalkItemsPositive(items[1..], WalkItem(items[0], next).next);
    }
  }

  /** The entry that starts at page `p` of a file in which `out` starts at page `base`. */
  function Find(out: seq<Out>, base: nat, p: nat): (o: seq<Out>)
    ensures |o| <= 1
  {
    if out == [] then [] else if p == base then [out[0]] else Find(out[1..], base + Len(out[0]), p)
  }

  /** In a file, the entry after `pre` starts at the page number that counts the pages before it. */
  lemma {:induction false} FindAfter(pre: seq<Out>, o: Out, post: seq<Out>, base: nat)
    requires Positive(pre)
    ensures Find(pre + [o] + post, base, base + TotalLen(pre)) == [o]
    decreases pre
  {
    var all := pre + [o] + post;
    if pre == [] {
      assert all[0] == o;
    } else {
      assert all[0] == pre[0] && all[1..] == pre[1..] + [o] + post;
      FindAfter(pre[1..], o, post, base + Len(pre[0]));
    }
  }

  // ---------------------------------------------------------------- the meaning of the copy

  /** Page `p` of the new file stands for `t`: same content, and every reference leads to its child. */
  ghost predicate Represents(out: seq<Out>, p: nat, t: Tree)
    decreases t, 0
  {
    match t
    case Leaf(pgno, items) =>
      exists refs :: Find(out, NUM_METAS, p) == [LeafPg(pgno, refs)] && |refs| == |items| && AllRefs(out, refs, items)
    case Branch(pgno, keys, kids) =>
      exists nums :: Find(out, NUM_METAS, p) == [BranchPg(pgno, keys, nums)] && |nums| == |kids| &&
        AllKids(out, nums, kids)
  }

  ghost predicate AllKids(out: seq<Out>, nums: seq<nat>, kids: seq<Tree>)
    requires |nums| == |kids|
    decreases kids, 1
  {
    forall i :: 0 <= i < |kids| ==> Represents(out, nums[i], kids[i])
  }

  ghost predicate RefTo(out: seq<Out>, r: Ref, item: Item)
    decreases item, 1
  {
    match item
    case Plain(v) => r == PlainRef(v)
    case Big(pgno, pages, v) => r.BigRef? && Find(out, NUM_METAS, r.pg) == [OverPg(pgno, pages, v)]
    case Sub(v, db) => r.SubRef? && r.v == v && if db.Empty? then r.root == P_INVALID else Represents(out, r.root, db.t)
  }

  ghost predicate AllRefs(out: seq<Out>, refs: seq<Ref>, items: seq<Item>)
    requires |refs| == |items|
    decreases items, 2
  {
    forall i :: 0 <= i < |items| ==> RefTo(out, refs[i], items[i])
  }

  /** The place in the file after `pre`. */
  ghost predicate Follows(pre: seq<Out>, next: nat) {
    Positive(pre) && next == NUM_METAS + TotalLen(pre)
  }

  lemma FollowsOn(pre: seq<Out>, next: nat, out: seq<Out>, next': nat)
    requires Follows(pre, next) && Positive(out) && next' == next + TotalLen(out)
    ensures Follows(pre + out, next')
  {
    TotalLenConcat(pre, out);
  }

  /** The copy of a tree stands for it, whatever is written before and after. */
  lemma {:induction false} WalkRepresents(t: Tree, next: nat, pre: seq<Out>, post: seq<Out>)
    requires Good(t) && Follows(pre, next)
    ensures Represents(pre + Walk(t, next).out + post, Walk(t, next).num, t)
    decreases t, 0
  {
    hide Represents, Find, Follows, Positive, AllRefs, AllKids, GoodItems, GoodKids, TotalLen;
    var all, num := pre + Walk(t, next).out + post, Walk(t, next).num;
    match t
    case Leaf(pgno, items) =>
      var w := WalkItems(items, next);
      var page := LeafPg(pgno, w.refs);
      WalkItemsRepresent(items, next, pre, [page] + post);
      WalkItemsLen(items, next);
      WalkItemsPositive(items, next);
      FollowsOn(pre, next, w.out, w.next);
      FindAfter(pre + w.out, page, post, NUM_METAS);
      Append3(pre, w.out, page, post);
      LeafRepresents(all, num, pgno, items, w.refs);
    case Branch(pgno, keys, kids) =>
      var w := WalkKids(kids, next);
      var page := BranchPg(pgno, keys, w.nums);
      WalkKidsRepresent(kids, next, pre, [page] + post);
      WalkKidsLen(kids, next);
      WalkKidsPositive(kids, next);
      FollowsOn(pre, next, w.out, w.next);
      FindAfter(pre + w.out, page, post, NUM_METAS);
      Append3(pre, w.out, page, post);
      BranchRepresents(all, num, pgno, keys, kids, w.nums);
  }

  lemma Append3(a: seq<Out>, b: seq<Out>, o: Out, d: seq<Out>)
    ensures a + (b + [o]) + d == a + b + [o] + d == a + b + ([o] + d)
  {}

  lemma LeafRepresents(out: seq<Out>, p: nat, pgno: nat, items: seq<Item>, refs: seq<Ref>)
    requires Find(out, NUM_METAS, p) == [LeafPg(pgno, refs)] && |refs| == |items| && AllRefs(out, refs, items)
    ensures Represents(out, p, Leaf(pgno, items))
  {}

  lemma BranchRepresents(out: seq<Out>, p: nat, pgno: nat, keys: seq<int>, kids: seq<Tree>, nums: seq<nat>)
    requires Find(out, NUM_METAS, p) == [BranchPg(pgno, keys, nums)] && |nums| == |kids| && AllKids(out, nums, kids)
    ensures Represents(out, p, Branch(pgno, keys, kids))
  {}

  lemma Regroup(a: seq<Out>, b: seq<Out>, c: seq<Out>, d: seq<Out>)
    ensures a + (b + c) + d == a + b + (c + d) == (a + b) + c + d
  {}

  lemma AllKidsCons(out: seq<Out>, num: nat, nums: seq<nat>, kids: seq<Tree>)
    requires kids != [] && |nums| == |kids| - 1 && Represents(out, num, kids[0]) && AllKids(out, nums, kids[1..])
    ensures AllKids(out, [num] + nums, kids)
  {
    hide Represents;
    forall i | 0 <= i < |kids| ensures Represents(out, ([num] + nums)[i], kids[i]) {
      if i > 0 { assert kids[1..][i - 1] == kids[i] && nums[i - 1] == ([num] + nums)[i]; }
    }
  }

  lemma AllRefsCons(out: seq<Out>, first: seq<Ref>, refs: seq<Ref>, items: seq<Item>)
    requires items != [] && |first| == 1 && |refs| == |items| - 1 && RefTo(out, first[0], items[0]) &&
      AllRefs(out, refs, items[1..])
    ensures AllRefs(out, first + refs, items)
  {
    hide RefTo;
    forall i | 0 <= i < |items| ensures RefTo(out, (first + refs)[i], items[i]) {
      if i > 0 { assert items[1..][i - 1] == items[i] && refs[i - 1] == (first + refs)[i]; }
    }
  }

  lemma {:induction false} WalkKidsRepresent(kids: seq<Tree>, next: nat, pre: seq<Out>, post: seq<Out>)
    requires GoodKids(kids) && Follows(pre, next)
    ensures |WalkKids(kids, next).nums| == |kids| &&
      AllKids(pre + WalkKids(kids, next).out + post, WalkKids(kids, next).nums, kids)
    decreases kids, 1
  {
    hide Represents, Find, Follows, Positive, Good;
    WalkKidsLen(kids, next);
    if kids != [] {
      var a := Walk(kids[0], next);
      var b := WalkKids(kids[1..], a.next);
      var all := pre + (a.out + b.out) + post;
      WalkRepresents(kids[0], next, pre, b.out + post);
      WalkLen(kids[0], next);
      WalkPositive(kids[0], next);
      FollowsOn(pre, next, a.out, a.next);
      WalkKidsRepresent(kids[1..], a.next, pre + a.out, post);
      Regroup(pre, a.out, b.out, post);
      AllKidsCons(all, a.num, b.nums, kids);
    }
  }

  lemma {:induction false} WalkItemRepresents(item: Item, next: nat, pre: seq<Out>, post: seq<Out>)
    requires GoodItem(item) && Follows(pre, next)
    ensures var w := WalkItem(item, next); |w.refs| == 1 && RefTo(pre + w.out + post, w.refs[0], item)
    decreases item, 1
  {
    match item
    case Plain(_) =>
    case Big(pgno, pages, v) => FindAfter(pre, OverPg(pgno, pages, v), post, NUM_METAS);
    case Sub(_, db) => if db.Root? { WalkRepresents(db.t, next, pre, post); }
  }

  lemma {:induction false} WalkItemsRepresent(items: seq<Item>, next: nat, pre: seq<Out>, post: seq<Out>)
    requires GoodItems(items) && Follows(pre, next)
    ensures |WalkItems(items, next).refs| == |items| &&
      AllRefs(pre + WalkItems(items, next).out + post, WalkItems(items, next).refs, items)
    decreases items, 2
  {
    hide RefTo, Find, Follows, Positive, GoodItem;
    WalkItemsLen(items, next);
    if items != [] {
      var a := WalkItem(items[0], next);
      var b := WalkItems(items[1..], a.next);
      var all := pre + (a.out + b.out) + post;
      WalkItemRepresents(items[0], next, pre, b.out + post);
      WalkItemLen(items[0], next);
      WalkItemPositive(items[0], next);
      FollowsOn(pre, next, a.out, a.next);
      WalkItemsRepresent(items[1..], a.next, pre + a.out, post);
      Regroup(pre, a.out, b.out, post);
      AllRefsCons(all, a.refs, b.refs, items);
    }
  }

  lemma {:induction false} FindNone(out: seq<Out>, base: nat, p: nat)
    requires p >= base + TotalLen(out)
    requires Positive(out)
    ensures Find(out, base, p) == []
    decreases out
  {
    if out != [] { FindNone(out[1..], base + Len(out[0]), p); }
  }

  lemma {:induction false} RefToOne(out: seq<Out>, r: Ref, a: Item, b: Item)
    requires RefTo(out, r, a) && RefTo(out, r, b) && Positive(out) && NUM_METAS + TotalLen(out) <= P_INVALID
    ensures a == b
    decreases a, 1
  {
    FindNone(out, NUM_METAS, P_INVALID);
    match a
    case Plain(_) =>
    case Big(pgno, pages, v) => assert Find(out, NUM_METAS, r.pg)[0] == OverPg(pgno, pages, v);
    case Sub(_, db) => if db.Root? && b.db.Root? { RepresentsOne(out, r.root, db.t, b.db.t); }
  }

  /** A page of the new file stands for at most one tree. */
  lemma {:induction false} RepresentsOne(out: seq<Out>, p: nat, t: Tree, u: Tree)
    requires Represents(out, p, t) && Represents(out, p, u) && Positive(out) && NUM_METAS + TotalLen(out) <= P_INVALID
    ensures t == u
    decreases t, 0
  {
    match t
    case Leaf(pgno, items) =>
      var refs :| Find(out, NUM_METAS, p) == [LeafPg(pgno, refs)] && |refs| == |items| && AllRefs(out, refs, items);
      assert Find(out, NUM_METAS, p)[0] == LeafPg(pgno, refs);
      assert u.Leaf? && |refs| == |u.items| && AllRefs(out, refs, u.items);
      forall i | 0 <= i < |items| ensures items[i] == u.items[i] { RefToOne(out, refs[i], items[i], u.items[i]); }
    case Branch(pgno, keys, kids) =>
      var nums :| Find(out, NUM_METAS, p) == [BranchPg(pgno, keys, nums)] && |nums| == |kids| &&
          AllKids(out, nums, kids);
      assert Find(out, NUM_METAS, p)[0] == BranchPg(pgno, keys, nums);
      assert u.Branch? && |nums| == |u.kids| && AllKids(out, nums, u.kids);
      forall i | 0 <= i < |kids| ensures kids[i] == u.kids[i] { RepresentsOne(out, nums[i], kids[i], u.kids[i]); }
  }

  // ---------------------------------------------------------------- every page once, and the root's number

  /** Page numbers of the source: one for each page or overflow run of a tree. */
  function Pages(t: Tree): multiset<nat>
    decreases t, 0
  {
    match t
    case Leaf(pgno, items) => multiset{pgno} + ItemsPages(items)
    case Branch(pgno, _, kids) => multiset{pgno} + KidPages(kids)
  }

  function KidPages(kids: seq<Tree>): multiset<nat>
    decreases kids, 1
  {
    if kids == [] then multiset{} else Pages(kids[0]) + KidPages(kids[1..])
  }

  function ItemPages(item: Item): multiset<nat>
    decreases item, 1
  {
    match item
    case Plain(_) => multiset{}
    case Big(pgno, _, _) => multiset{pgno}
    case Sub(_, db) => if db.Empty? then multiset{} else Pages(db.t)
  }

  function ItemsPages(items: seq<Item>): multiset<nat>
    decreases items, 1
  {
    if items == [] then multiset{} else ItemPages(items[0]) + ItemsPages(items[1..])
  }

  /** How many pages of a file a tree takes. */
  function PageCount(t: Tree): nat
    decreases t, 0
  {
    match t
    case Leaf(_, items) => 1 + ItemsCount(items)
    case Branch(_, _, kids) => 1 + KidCount(kids)
  }

  function KidCount(kids: seq<Tree>): nat
    decreases kids, 1
  {
    if kids == [] then 0 else PageCount(kids[0]) + KidCount(kids[1..])
  }

  function ItemCount(item: Item): nat
    decreases item, 1
  {
    match item
    case Plain(_) => 0
    case Big(_, pages, _) => pages
    case Sub(_, db) => if db.Empty? then 0 else PageCount(db.t)
  }

  function ItemsCount(items: seq<Item>): nat
    decreases items, 1
  {
    if items == [] then 0 else ItemCount(items[0]) + ItemsCount(items[1..])
  }

  function Sources(out: seq<Out>): multiset<nat> {
    if out == [] then multiset{} else multiset{out[0].src} + Sources(out[1..])
  }

  lemma {:induction false} SourcesConcat(a: seq<Out>, b: seq<Out>)
    ensures Sources(a + b) == Sources(a) + Sources(b)
    decreases a
  {
    if a == [] {
      assert a + b == b;
    } else {
      assert (a + b)[1..] == a[1..] + b;
      SourcesConcat(a[1..], b);
    }
  }

  /** The walk writes each page of the tree once, and as many pages as the tree has. */
  lemma {:induction false} WalkEmitsOnce(t: Tree, next: nat)
    ensures Sources(Walk(t, next).out) == Pages(t) && TotalLen(Walk(t, next).out) == PageCount(t)
    decreases t, 0
  {
    match t
    case Leaf(pgno, items) =>
      var w := WalkItems(items, next);
      ItemsEmitOnce(items, next);
      EmittedLast(w.out, LeafPg(pgno, w.refs));
    case Branch(pgno, keys, kids) =>
      var w := WalkKids(kids, next);
      KidsEmitOnce(kids, next);
      EmittedLast(w.out, BranchPg(pgno, keys, w.nums));
  }

  lemma EmittedLast(out: seq<Out>, o: Out)
    ensures Sources(out + [o]) == Sources(out) + multiset{o.src} && TotalLen(out + [o]) == TotalLen(out) + Len(o)
  {
    SourcesConcat(out, [o]);
    TotalLenConcat(out, [o]);
    assert Sources([o][1..]) == multiset{} && TotalLen([o][1..]) == 0;
  }

  lemma {:induction false} KidsEmitOnce(kids: seq<Tree>, next: nat)
    ensures Sources(WalkKids(kids, next).out) == KidPages(kids) && TotalLen(WalkKids(kids, next).out) == KidCount(kids)
    decreases kids, 1
  {
    if kids != [] {
      var a := Walk(kids[0], next);
      var b := WalkKids(kids[1..], a.next);
      WalkEmitsOnce(kids[0], next);
      KidsEmitOnce(kids[1..], a.next);
      SourcesConcat(a.out, b.out);
      TotalLenConcat(a.out, b.out);
    }
  }

  lemma {:induction false} ItemEmitsOnce(item: Item, next: nat)
    ensures Sources(WalkItem(item, next).out) == ItemPages(item) &&
      TotalLen(WalkItem(item, next).out) == ItemCount(item)
    decreases item, 1
  {
    match item
    case Plain(_) =>
    case Big(pgno, pages, v) =>
      EmittedLast([], OverPg(pgno, pages, v));
      assert [] + [OverPg(pgno, pages, v)] == [OverPg(pgno, pages, v)];
    case Sub(_, db) => if db.Root? { WalkEmitsOnce(db.t, next); }
  }

  lemma {:induction false} ItemsEmitOnce(items: seq<Item>, next: nat)
    ensures Sources(WalkItems(items, next).out) == ItemsPages(items) &&
      TotalLen(WalkItems(items, next).out) == ItemsCount(items)
    decreases items, 1
  {
    if items != [] {
      var a := WalkItem(items[0], next);
      var b := WalkItems(items[1..], a.next);
      ItemEmitsOnce(items[0], next);
      ItemsEmitOnce(items[1..], a.next);
      SourcesConcat(a.out, b.out);
      TotalLenConcat(a.out, b.out);
    }
  }

  function DbCount(db: Db): nat {
    if db.Empty? then 0 else PageCount(db.t)
  }

  /** The number that belongs into md_root of the copied main database. */
  function RootNumber(db: Db): nat {
    if db.Empty? then P_INVALID else Walk(db.t, NUM_METAS).num
  }

  /** mm_last_pg as mdb_env_copyfd1 computes it before the walk, also used as the main root. */
  function LastPg(nextPgno: nat, freecount: nat): int {
    nextPgno - freecount - 1
  }

  /**
    When every page is a meta page, in the free list or its tree, or in the main tree, the number
    computed beforehand is the root's, exactly when the main database is not empty.
   */
  lemma RootIsLastPg(db: Db, nextPgno: nat, freecount: nat)
    requires nextPgno == NUM_METAS + freecount + DbCount(db)
    requires db.Root? ==> Good(db.t)
    ensures LastPg(nextPgno, freecount) == RootNumber(db) <==> db.Root?
  {
    if db.Root? {
      WalkEmitsOnce(db.t, NUM_METAS);
      WalkLen(db.t, NUM_METAS);
    }
  }

  /** The whole file: the main tree is found from the root number written beforehand. */
  lemma CopyPreserves(t: Tree, nextPgno: nat, freecount: nat)
    requires Good(t) && nextPgno == NUM_METAS + freecount + PageCount(t)
    ensures var root := LastPg(nextPgno, freecount); root >= 0 && Represents(Walk(t, NUM_METAS).out, root, t)
    ensures Sources(Walk(t, NUM_METAS).out) == Pages(t)
    ensures NUM_METAS + TotalLen(Walk(t, NUM_METAS).out) == LastPg(nextPgno, freecount) + 1
  {
    WalkRepresents(t, NUM_METAS, [], []);
    assert [] + Walk(t, NUM_METAS).out + [] == Walk(t, NUM_METAS).out;
    WalkEmitsOnce(t, NUM_METAS);
    WalkLen(t, NUM_METAS);
  }

  // ---------------------------------------------------------------- the walk with an explicit stack

  /** A page on the cursor stack, with the new numbers of its first children. */
  datatype Frame = Frame(page: Tree, nums: seq<nat>)

  /** What is still written for the page of a frame. */
  function FinishFrame(f: Frame, next: nat): Walked {
    match f.page
    case Leaf(_, _) => Walk(f.page, next)
    case Branch(pgno, keys, kids) =>
      if |f.nums| > |kids| then Walked([], 0, next) else
        var w := WalkKids(kids[|f.nums|..], next);
        Walked(w.out + [BranchPg(pgno, keys, f.nums + w.nums)], w.next, w.next + 1)
  }

  /** What is still written for the whole stack. */
  function Outcome(stack: seq<Frame>, next: nat): Walked
    decreases |stack|, 0
  {
    if stack == [] then Walked([], 0, next) else
      var n := |stack| - 1;
      var w := FinishFrame(stack[n], next);
      var r := Numbered(stack[..n], w.num, w.next);
      Walked(w.out + r.out, r.num, r.next)
  }

  /** The top page's current child has number `num`. */
  function Numbered(stack: seq<Frame>, num: nat, next: nat): Walked
    decreases |stack|, 1
  {
    if stack == [] then Walked([], num, next) else Outcome(Told(stack, num), next)
  }

  function Told(stack: seq<Frame>, num: nat): (r: seq<Frame>)
    requires stack != []
    ensures |r| == |stack|
  {
    var n := |stack| - 1;
    stack[n := Frame(stack[n].page, stack[n].nums + [num])]
  }

  /** Pushing the next child of the top page changes nothing of what is still to be written. */
  lemma PushKid(stack: seq<Frame>, next: nat)
    requires stack != []
    requires var f := stack[|stack| - 1]; f.page.Branch? && |f.nums| < |f.page.kids|
    ensures var f := stack[|stack| - 1];
      Outcome(stack + [Frame(f.page.kids[|f.nums|], [])], next) == Outcome(stack, next)
  {
    var n := |stack| - 1;
    var f := stack[n];
    var kids, m := f.page.kids, |f.nums|;
    var kid := Frame(kids[m], []);
    var a := Walk(kids[m], next);
    var b := WalkKids(kids[m + 1..], a.next);
    assert kids[m..][1..] == kids[m + 1..];
    EnterFrame(kids[m], next);
    assert (stack + [kid])[..n + 1] == stack;
    var told := Told(stack, a.num);
    assert told[..n] == stack[..n];
    var page := BranchPg(f.page.pgno, f.page.keys, f.nums + ([a.num] + b.nums));
    assert f.nums + [a.num] + b.nums == f.nums + ([a.num] + b.nums);
    assert FinishFrame(told[n], a.next) == Walked(b.out + [page], b.next, b.next + 1);
    assert FinishFrame(f, next) == Walked(a.out + b.out + [page], b.next, b.next + 1);
    var r := Numbered(stack[..n], b.next, b.next + 1);
    assert Outcome(told, a.next) == Walked(b.out + [page] + r.out, r.num, r.next);
    assert Outcome(stack, next) == Walked(a.out + b.out + [page] + r.out, r.num, r.next);
    assert Outcome(stack + [kid], next) == Walked(a.out + (b.out + [page] + r.out), r.num, r.next);
    assert a.out + (b.out + [page] + r.out) == a.out + b.out + [page] + r.out;
  }

  lemma EnterFrame(t: Tree, next: nat)
    ensures FinishFrame(Frame(t, []), next) == Walk(t, next)
  {
    if t.Branch? { assert t.kids[0..] == t.kids && [] + WalkKids(t.kids, next).nums == WalkKids(t.kids, next).nums; }
  }

  lemma OneFrame(t: Tree, next: nat)
    ensures Outcome([Frame(t, [])], next) == Walk(t, next)
  {
    EnterFrame(t, next);
    assert Walk(t, next).out + [] == Walk(t, next).out;
    assert [Frame(t, [])][..0] == [];
  }

  lemma {:induction false} WalkItemsStep(items: seq<Item>, i: nat, next: nat)
    requires i < |items|
    ensures var a := WalkItems(items[..i], next); var b := WalkItem(items[i], a.next);
      WalkItems(items[..i + 1], next) == WalkedItems(a.out + b.out, a.refs + b.refs, b.next)
    decreases i
  {
    if i == 0 {
      assert items[..1][1..] == [] && items[..1][0] == items[0] && items[..0] == [];
    } else {
      hide WalkItem;
      var c := WalkItem(items[0], next);
      assert items[..i][0] == items[0] == items[..i + 1][0] && items[1..][i - 1] == items[i];
      assert items[1..][..i - 1] == items[..i][1..] && items[1..][..i] == items[..i + 1][1..];
      WalkItemsStep(items[1..], i - 1, c.next);
    }
  }

  lemma {:induction false} KidCountAt(kids: seq<Tree>, i: nat)
    requires i < |kids|
    ensures PageCount(kids[i]) <= KidCount(kids)
    decreases i
  {
    if i > 0 { KidCountAt(kids[1..], i - 1); }
  }

  lemma {:induction false} ItemCountAt(items: seq<Item>, i: nat)
    requires i < |items|
    ensures ItemCount(items[i]) <= ItemsCount(items)
    decreases i
  {
    if i > 0 { ItemCountAt(items[1..], i - 1); }
  }

  /** Frames of pages with at most `bound` pages below; all but the top one wait for a child. */
  ghost predicate StackOk(stack: seq<Frame>, bound: nat) {
    && (forall i :: 0 <= i < |stack| ==> Good(stack[i].page) && PageCount(stack[i].page) <= bound)
    && (forall i :: 0 <= i < |stack| - 1 ==> stack[i].page.Branch? && |stack[i].nums| < |stack[i].page.kids|)
    && (stack != [] && stack[|stack| - 1].page.Branch? ==> |stack[|stack| - 1].nums| <= |stack[|stack| - 1].page.kids|)
  }

  class Copier {
    var next: nat       // mc_next_pgno
    var out: seq<Out>   // everything put into the write buffers

    constructor ()
      ensures next == NUM_METAS && out == []
    {
      next, out := NUM_METAS, [];
    }

    method Emit(page: Out) returns (num: nat)
      modifies this
      ensures out == old(out) + [page] && num == old(next) && next == num + Len(page)
    {
      out, num := out + [page], next;
      next := next + if page.OverPg? then page.pages else 1;
    }

    /** The nodes of a leaf: overflow runs are written, named databases walked, references renumbered. */
    method CopyItems(items: seq<Item>) returns (refs: seq<Ref>)
      requires GoodItems(items)
      modifies this
      ensures var w := WalkItems(items, old(next)); out == old(out) + w.out && refs == w.refs && next == w.next
      decreases ItemsCount(items), 2
    {
      var i := 0;
      refs := [];
      assert items[..0] == [];
      while i < |items|
        invariant 0 <= i <= |items|
        invariant var w := WalkItems(items[..i], old(next)); out == old(out) + w.out && refs == w.refs && next == w.next
      {
        WalkItemsStep(items, i, old(next));
        ItemCountAt(items, i);
        assert GoodItem(items[i]);
        match items[i] {
          case Plain(v) => refs := refs + [PlainRef(v)];
          case Big(pgno, pages, v) =>
            var num := Emit(OverPg(pgno, pages, v));
            refs := refs + [BigRef(num)];
          case Sub(v, db) =>
            var root := P_INVALID;
            if db.Root? { root := CWalk(db.t); }
            refs := refs + [SubRef(v, root)];
        }
        i := i + 1;
      }
      assert items[..i] == items;
    }

    /** Push the next child of the top page, and on down to the first leaf below it. */
    method Descend(stack0: seq<Frame>, ghost bound: nat) returns (stack: seq<Frame>)
      requires StackOk(stack0, bound) && stack0 != []
      requires var f := stack0[|stack0| - 1]; f.page.Branch? ==> |f.nums| < |f.page.kids|
      ensures StackOk(stack, bound) && stack != [] && stack[|stack| - 1].page.Leaf? &&
        Outcome(stack, next) == Outcome(stack0, next)
    {
      stack := stack0;
      while stack[|stack| - 1].page.Branch?
        invariant StackOk(stack, bound) && stack != [] && Outcome(stack, next) == Outcome(stack0, next)
        invariant var f := stack[|stack| - 1]; f.page.Branch? ==> |f.nums| < |f.page.kids|
        decreases stack[|stack| - 1].page
      {
        var f := stack[|stack| - 1];
        PushKid(stack, next);
        KidCountAt(f.page.kids, |f.nums|);
        assert GoodKids(f.page.kids) && Good(f.page.kids[|f.nums|]);
        stack := stack + [Frame(f.page.kids[|f.nums|], [])];
      }
    }

    /** Write the top page, once all below it is written. */
    method WriteTop(f: Frame) returns (num: nat)
      requires Good(f.page) && (f.page.Branch? ==> |f.nums| == |f.page.kids|)
      modifies this
      ensures var w := FinishFrame(f, old(next));
        out == old(out) + w.out && num == w.num && next == w.next && w.out != []
      decreases PageCount(f.page), 0
    {
      if f.page.Leaf? {
        var refs := CopyItems(f.page.items);
        num := Emit(LeafPg(f.page.pgno, refs));
      } else {
        assert f.page.kids[|f.nums|..] == [] && f.nums + [] == f.nums;
        num := Emit(BranchPg(f.page.pgno, f.page.keys, f.nums));
      }
    }

    /** mdb_env_cwalk: from the first leaf on, every page is written after its last child. */
    method CWalk(t: Tree) returns (root: nat)
      requires Good(t)
      modifies this
      ensures var w := Walk(t, old(next)); out == old(out) + w.out && root == w.num && next == w.next
      decreases PageCount(t), 1
    {
      ghost var full := Walk(t, next);
      OneFrame(t, next);
      hide Walk, WalkKids;
      var stack := Descend([Frame(t, [])], PageCount(t));
      while true
        invariant StackOk(stack, PageCount(t)) && stack != []
        invariant Left(full, old(out), out, Outcome(stack, next))
        decreases |Outcome(stack, next).out|, stack[|stack| - 1].page.Branch?
      {
        var n := |stack| - 1;
        var f := stack[n];
        if f.page.Branch? && |f.nums| < |f.page.kids| {
          stack := Descend(stack, PageCount(t));
        } else {
          ghost var before, ahead, w := out, Outcome(stack, next), FinishFrame(f, next);
          var num := WriteTop(f);
          Wrote(full, old(out), before, ahead, w, Numbered(stack[..n], num, next));
          hide Outcome, FinishFrame;
          if n == 0 { return num; }
          stack := Told(stack[..n], num);
        }
      }
    }
  }

  /** What is written and what is left make up the whole. */
  ghost predicate Left(full: Walked, start: seq<Out>, out: seq<Out>, ahead: Walked) {
    start + full.out == out + ahead.out && full.num == ahead.num && full.next == ahead.next
  }

  lemma Wrote(full: Walked, start: seq<Out>, out: seq<Out>, ahead: Walked, w: Walked, rest: Walked)
    requires Left(full, start, out, ahead) && ahead == Walked(w.out + rest.out, rest.num, rest.next)
    ensures Left(full, start, out + w.out, rest)
  {
    assert out + (w.out + rest.out) == out + w.out + rest.out;
  }
}
