/** The trees of a transaction: what linking, unlinking, allocating and freeing pages does to them. */
module RecyclerTrees {
  import opened Recycler

  // ---------------------------------------------------------------- walks

  lemma WalkSnoc(pages: map<PgNo, Page>, tops: set<PgNo>, path: seq<PgNo>, y: PgNo, x: PgNo)
    requires WalkTo(pages, tops, path, y) && y in pages && x in pages[y].refs
    ensures WalkTo(pages, tops, path + [x], x)
  {}

  lemma ReachedNext(pages: map<PgNo, Page>, tops: set<PgNo>, y: PgNo, x: PgNo)
    requires Reached(pages, tops, y) && y in pages && x in pages[y].refs
    ensures Reached(pages, tops, x)
  {
    var path :| WalkTo(pages, tops, path, y);
    WalkSnoc(pages, tops, path, y, x);
  }

  lemma ReachedTop(pages: map<PgNo, Page>, tops: set<PgNo>, t: PgNo)
    requires t in tops
    ensures Reached(pages, tops, t)
  {
    assert WalkTo(pages, tops, [t], t);
  }

  lemma WalkInit(pages: map<PgNo, Page>, tops: set<PgNo>, path: seq<PgNo>)
    requires Walk(pages, tops, path) && |path| > 1
    ensures var y := path[|path| - 2];
      WalkTo(pages, tops, path[..|path| - 1], y) && y in pages && path[|path| - 1] in pages[y].refs
  {}

  /** A walk never leaves the trees. */
  lemma {:induction false} WalkInside(roots: set<PgNo>, detached: set<PgNo>, view: map<PgNo, Page>, path: seq<PgNo>)
    requires Forest(roots, detached, view) && Walk(view, roots + detached, path)
    ensures path[|path| - 1] in view
    decreases |path|
  {
    if |path| > 1 {
      hide Forest;
      WalkInit(view, roots + detached, path);
      WalkInside(roots, detached, view, path[..|path| - 1]);
      RefsInside(roots, detached, view, path[|path| - 2], path[|path| - 1]);
    }
  }

  lemma RefsInside(roots: set<PgNo>, detached: set<PgNo>, view: map<PgNo, Page>, y: PgNo, x: PgNo)
    requires Forest(roots, detached, view) && y in view && x in view[y].refs
    ensures x in view && x !in roots && x !in detached
  {}

  /** How a walk ends: at a top, or at a page referred to by the page before. */
  ghost predicate EndsBelow(view: map<PgNo, Page>, path: seq<PgNo>)
    requires |path| > 1
  {
    path[|path| - 2] in view && path[|path| - 1] in view[path[|path| - 2]].refs
  }

  /** Two walks to one page end alike. */
  lemma SameEnd(roots: set<PgNo>, detached: set<PgNo>, view: map<PgNo, Page>, a: seq<PgNo>, b: seq<PgNo>)
    requires OneReferrer(roots, detached, view) && a != [] && b != [] && a[|a| - 1] == b[|b| - 1]
    requires if |a| == 1 then a[0] in roots + detached else EndsBelow(view, a)
    requires if |b| == 1 then b[0] in roots + detached else EndsBelow(view, b)
    ensures |a| == 1 <==> |b| == 1
    ensures |a| > 1 ==> a[|a| - 2] == b[|b| - 2]
  {}

  /** There is only one way to a page: one tree, and one referrer at every step. */
  lemma {:induction false} WalkUnique(
      roots: set<PgNo>, detached: set<PgNo>, view: map<PgNo, Page>, a: seq<PgNo>, b: seq<PgNo>)
    requires OneReferrer(roots, detached, view)
    requires Walk(view, roots + detached, a) && Walk(view, roots + detached, b) && a[|a| - 1] == b[|b| - 1]
    ensures a == b
    decreases |a|
  {
    hide OneReferrer;
    SameEnd(roots, detached, view, a, b);
    if |a| > 1 {
      WalkInit(view, roots + detached, a);
      WalkInit(view, roots + detached, b);
      hide Walk;
      WalkUnique(roots, detached, view, a[..|a| - 1], b[..|b| - 1]);
      assert a == a[..|a| - 1] + [a[|a| - 1]] && b == b[..|b| - 1] + [b[|b| - 1]];
    }
  }

  // ---------------------------------------------------------------- the pages below others

  /** The pages reached from `tops`. */
  ghost function Below(view: map<PgNo, Page>, tops: set<PgNo>): set<PgNo> {
    set p | p in view && Reached(view, tops, p)
  }

  /** No page is reached in two ways. */
  ghost predicate Apart(view: map<PgNo, Page>, tops: set<PgNo>) {
    forall a, b :: Walk(view, tops, a) && Walk(view, tops, b) && a[|a| - 1] == b[|b| - 1] ==> a == b
  }

  lemma RootsAreApart(roots: set<PgNo>, view: map<PgNo, Page>)
    requires OneReferrer(roots, {}, view)
    ensures Apart(view, roots)
  {
    hide OneReferrer;
    assert roots + {} == roots;
    forall a, b | Walk(view, roots, a) && Walk(view, roots, b) && a[|a| - 1] == b[|b| - 1] ensures a == b {
      WalkUnique(roots, {}, view, a, b);
    }
  }

  lemma WalkWider(view: map<PgNo, Page>, tops: set<PgNo>, wider: set<PgNo>, path: seq<PgNo>)
    requires Walk(view, tops, path) && tops <= wider
    ensures Walk(view, wider, path)
  {}

  lemma ApartNarrower(view: map<PgNo, Page>, tops: set<PgNo>, some: set<PgNo>)
    requires Apart(view, tops) && some <= tops
    ensures Apart(view, some)
  {
    forall a, b | Walk(view, some, a) && Walk(view, some, b) && a[|a| - 1] == b[|b| - 1] ensures a == b {
      WalkWider(view, some, tops, a);
      WalkWider(view, some, tops, b);
    }
  }

  lemma WalkJoin(view: map<PgNo, Page>, tops: set<PgNo>, way: seq<PgNo>, x: PgNo, path: seq<PgNo>)
    requires WalkTo(view, tops, way, x) && x in view && Walk(view, view[x].refs, path)
    ensures WalkTo(view, tops, way + path, path[|path| - 1])
  {}

  lemma ApartRefs(view: map<PgNo, Page>, tops: set<PgNo>, x: PgNo)
    requires Apart(view, tops) && Reached(view, tops, x) && x in view
    ensures Apart(view, view[x].refs)
  {
    var way :| WalkTo(view, tops, way, x);
    var refs := view[x].refs;
    hide Walk;
    forall a, b | Walk(view, refs, a) && Walk(view, refs, b) && a[|a| - 1] == b[|b| - 1] ensures a == b {
      WalkJoin(view, tops, way, x, a);
      WalkJoin(view, tops, way, x, b);
      assert way + a == way + b;
      assert a == (way + a)[|way|..] && b == (way + b)[|way|..];
    }
  }

  lemma ReachedEither(view: map<PgNo, Page>, a: set<PgNo>, b: set<PgNo>, p: PgNo)
    ensures Reached(view, a + b, p) <==> Reached(view, a, p) || Reached(view, b, p)
  {
    if path :| WalkTo(view, a + b, path, p) {
      assert WalkTo(view, if path[0] in a then a else b, path, p);
    }
    if path :| WalkTo(view, a, path, p) { assert WalkTo(view, a + b, path, p); }
    if path :| WalkTo(view, b, path, p) { assert WalkTo(view, a + b, path, p); }
  }

  lemma NotBoth(view: map<PgNo, Page>, a: set<PgNo>, b: set<PgNo>, p: PgNo)
    requires Apart(view, a + b) && a !! b
    ensures !(Reached(view, a, p) && Reached(view, b, p))
  {
    if Reached(view, a, p) && Reached(view, b, p) {
      var x :| WalkTo(view, a, x, p);
      var y :| WalkTo(view, b, y, p);
      WalkWider(view, a, a + b, x);
      WalkWider(view, b, a + b, y);
      assert false;
    }
  }

  /** What is below several tops is counted top by top. */
  lemma BelowSum(view: map<PgNo, Page>, a: set<PgNo>, b: set<PgNo>)
    requires Apart(view, a + b) && a !! b
    ensures |Below(view, a + b)| == |Below(view, a)| + |Below(view, b)|
  {
    hide Reached, Apart;
    forall p ensures p in Below(view, a + b) <==> p in Below(view, a) + Below(view, b) { ReachedEither(view, a, b, p); }
    forall p | p in Below(view, a) ensures p !in Below(view, b) { NotBoth(view, a, b, p); }
    assert Below(view, a + b) == Below(view, a) + Below(view, b);
  }

  lemma ReachedOne(view: map<PgNo, Page>, x: PgNo, p: PgNo)
    requires x in view
    ensures Reached(view, {x}, p) <==> p == x || Reached(view, view[x].refs, p)
  {
    ReachedTop(view, {x}, x);
    if path :| WalkTo(view, {x}, path, p) {
      if |path| > 1 { assert WalkTo(view, view[x].refs, path[1..], p); }
    }
    if path :| WalkTo(view, view[x].refs, path, p) {
      WalkJoin(view, {x}, [x], x, path);
    }
  }

  lemma NotBelowItself(view: map<PgNo, Page>, x: PgNo)
    requires x in view && Apart(view, {x})
    ensures !Reached(view, view[x].refs, x)
  {
    assert Walk(view, {x}, [x]) && [x][0] == x;
    if path :| WalkTo(view, view[x].refs, path, x) {
      WalkJoin(view, {x}, [x], x, path);
      assert false;
    }
  }

  /** A page, and what is below its references. */
  lemma BelowOne(view: map<PgNo, Page>, x: PgNo)
    requires x in view && Apart(view, {x})
    ensures |Below(view, {x})| == 1 + |Below(view, view[x].refs)|
  {
    hide Reached, Apart;
    NotBelowItself(view, x);
    forall p ensures p in Below(view, {x}) <==> p in {x} + Below(view, view[x].refs) { ReachedOne(view, x, p); }
    assert Below(view, {x}) == {x} + Below(view, view[x].refs);
  }

  lemma BelowNothing(view: map<PgNo, Page>)
    ensures Below(view, {}) == {}
  {
    forall p ensures !Reached(view, {}, p) {
      assert forall path :: !Walk(view, {}, path);
    }
  }

  // ---------------------------------------------------------------- changes to a forest

  /** What was a top stays reached, and what was referred to is a top now or still referred to. */
  ghost predicate Carries(view: map<PgNo, Page>, tops: set<PgNo>, view': map<PgNo, Page>, tops': set<PgNo>) {
    && (forall t :: t in tops && t in view' ==> Reached(view', tops', t))
    && (forall y, x :: y in view && x in view[y].refs && x in view' ==>
          x in tops' || (y in view' && x in view'[y].refs))
  }

  lemma {:induction false} Carried(
      view: map<PgNo, Page>, tops: set<PgNo>, view': map<PgNo, Page>, tops': set<PgNo>, path: seq<PgNo>)
    requires Walk(view, tops, path) && Carries(view, tops, view', tops')
    ensures path[|path| - 1] in view' ==> Reached(view', tops', path[|path| - 1])
    decreases |path|
  {
    var x := path[|path| - 1];
    if |path| > 1 && x in view' {
      var y := path[|path| - 2];
      WalkInit(view, tops, path);
      if x in tops' {
        ReachedTop(view', tops', x);
      } else {
        Carried(view, tops, view', tops', path[..|path| - 1]);
        ReachedNext(view', tops', y, x);
      }
    }
  }

  lemma AllCarried(view: map<PgNo, Page>, tops: set<PgNo>, view': map<PgNo, Page>, tops': set<PgNo>, p: PgNo)
    requires Reached(view, tops, p) && p in view' && Carries(view, tops, view', tops')
    ensures Reached(view', tops', p)
  {
    var path :| WalkTo(view, tops, path, p);
    Carried(view, tops, view', tops', path);
  }

  /** A change that carries every walk over leaves every page reached. */
  lemma Regrown(view: map<PgNo, Page>, tops: set<PgNo>, view': map<PgNo, Page>, tops': set<PgNo>)
    requires AllReached(view, tops) && Carries(view, tops, view', tops')
    requires forall p :: p in view' ==> p in view || p in tops'
    ensures AllReached(view', tops')
  {
    forall p | p in view' ensures Reached(view', tops', p) {
      if p in tops' {
        ReachedTop(view', tops', p);
      } else {
        AllCarried(view, tops, view', tops', p);
      }
    }
  }

  /** Tops that stay tops are reached. */
  lemma TopsCarry(view: map<PgNo, Page>, tops: set<PgNo>, view': map<PgNo, Page>, tops': set<PgNo>)
    requires forall t :: t in tops && t in view' ==> t in tops'
    requires forall y, x :: y in view && x in view[y].refs && x in view' ==>
      x in tops' || (y in view' && x in view'[y].refs)
    ensures Carries(view, tops, view', tops')
  {
    forall t | t in tops && t in view' ensures Reached(view', tops', t) { ReachedTop(view', tops', t); }
  }

  lemma RegrownFromTops(view: map<PgNo, Page>, tops: set<PgNo>, view': map<PgNo, Page>, tops': set<PgNo>)
    requires AllReached(view, tops)
    requires forall t :: t in tops && t in view' ==> t in tops'
    requires forall y, x :: y in view && x in view[y].refs && x in view' ==>
      x in tops' || (y in view' && x in view'[y].refs)
    requires forall p :: p in view' ==> p in view || p in tops'
    ensures AllReached(view', tops')
  {
    hide *;
    TopsCarry(view, tops, view', tops');
    Regrown(view, tops, view', tops');
  }

  /** New pages, not yet linked. */
  lemma AddedForest(roots: set<PgNo>, detached: set<PgNo>, view: map<PgNo, Page>, pages: map<PgNo, Page>)
    requires Forest(roots, detached, view) && pages.Keys !! view.Keys && Blank(pages)
    ensures Forest(roots, detached + pages.Keys, view + pages)
  {
    hide AllReached;
    RegrownFromTops(view, roots + detached, view + pages, roots + (detached + pages.Keys));
  }

  lemma LinkedOnce(roots: set<PgNo>, detached: set<PgNo>, view: map<PgNo, Page>, p: PgNo, c: PgNo)
    requires OneReferrer(roots, detached, view) && p in view && c in detached
    ensures OneReferrer(roots, detached - {c}, SetRefs(view, p, view[p].refs + {c}))
  {}

  lemma MoreRefsReach(view: map<PgNo, Page>, tops: set<PgNo>, p: PgNo, refs: set<PgNo>, x: PgNo)
    requires p in view && Reached(view, tops, x)
    ensures Reached(SetRefs(view, p, view[p].refs + refs), tops, x)
  {
    var path :| WalkTo(view, tops, path, x);
    assert WalkTo(SetRefs(view, p, view[p].refs + refs), tops, path, x);
  }

  lemma LinkCarries(view: map<PgNo, Page>, tops: set<PgNo>, p: PgNo, c: PgNo)
    requires p in view && Reached(view, tops - {c}, p)
    ensures Carries(view, tops, SetRefs(view, p, view[p].refs + {c}), tops - {c})
  {
    hide Reached;
    var view' := SetRefs(view, p, view[p].refs + {c});
    MoreRefsReach(view, tops - {c}, p, {c}, p);
    ReachedNext(view', tops - {c}, p, c);
    forall t | t in tops - {c} ensures Reached(view', tops - {c}, t) { ReachedTop(view', tops - {c}, t); }
  }

  /** A detached page is put below a page of another tree. */
  lemma LinkedForest(roots: set<PgNo>, detached: set<PgNo>, view: map<PgNo, Page>, p: PgNo, c: PgNo)
    requires Forest(roots, detached, view) && p in view && c in detached && Reached(view, roots + detached - {c}, p)
    ensures Forest(roots, detached - {c}, SetRefs(view, p, view[p].refs + {c}))
  {
    hide Carries, AllReached, Reached;
    LinkedOnce(roots, detached, view, p, c);
    assert roots + (detached - {c}) == roots + detached - {c};
    hide OneReferrer;
    LinkCarries(view, roots + detached, p, c);
    Regrown(view, roots + detached, SetRefs(view, p, view[p].refs + {c}), roots + (detached - {c}));
  }

  lemma UnlinkedOnce(roots: set<PgNo>, detached: set<PgNo>, view: map<PgNo, Page>, p: PgNo, c: PgNo)
    requires OneReferrer(roots, detached, view) && p in view && c in view[p].refs
    ensures OneReferrer(roots, detached + {c}, SetRefs(view, p, view[p].refs - {c}))
  {}

  /** A page loses its one referrer. */
  lemma UnlinkedForest(roots: set<PgNo>, detached: set<PgNo>, view: map<PgNo, Page>, p: PgNo, c: PgNo)
    requires Forest(roots, detached, view) && p in view && c in view[p].refs
    ensures Forest(roots, detached + {c}, SetRefs(view, p, view[p].refs - {c}))
  {
    hide AllReached;
    UnlinkedOnce(roots, detached, view, p, c);
    RegrownFromTops(view, roots + detached, SetRefs(view, p, view[p].refs - {c}), roots + (detached + {c}));
  }

  /** A root becomes detached, or a detached page a root. */
  lemma RerootedForest(
      roots: set<PgNo>, detached: set<PgNo>, view: map<PgNo, Page>, roots': set<PgNo>, detached': set<PgNo>)
    requires Forest(roots, detached, view) && roots' !! detached' && roots' + detached' == roots + detached
    ensures Forest(roots', detached', view)
  {
    hide AllReached;
    forall p ensures p in roots || p in detached <==> p in roots' || p in detached' {
      assert p in roots' + detached' <==> p in roots + detached;
    }
  }

  /** A detached page goes, and what it referred to is detached. */
  lemma FreedForest(roots: set<PgNo>, detached: set<PgNo>, view: map<PgNo, Page>, p: PgNo)
    requires Forest(roots, detached, view) && p in view && p in detached
    ensures Forest(roots, detached - {p} + view[p].refs, view - {p})
  {
    hide AllReached;
    RegrownFromTops(view, roots + detached, view - {p}, roots + (detached - {p} + view[p].refs));
  }

  /** Detached pages without references go. */
  lemma RunFreedForest(roots: set<PgNo>, detached: set<PgNo>, view: map<PgNo, Page>, run: set<PgNo>)
    requires Forest(roots, detached, view) && run <= detached && run <= view.Keys
    requires forall p :: p in run ==> view[p].refs == {}
    ensures Forest(roots, detached - run, view - run)
  {
    hide AllReached;
    RegrownFromTops(view, roots + detached, view - run, roots + (detached - run));
  }

  /** The contents of pages do not matter. */
  lemma ModifiedForest(roots: set<PgNo>, detached: set<PgNo>, view: map<PgNo, Page>, p: PgNo, body: seq<nat>)
    requires Forest(roots, detached, view) && p in view
    ensures Forest(roots, detached, view[p := Page(view[p].refs, body)])
  {
    hide AllReached;
    RegrownFromTops(view, roots + detached, view[p := Page(view[p].refs, body)], roots + detached);
  }
}
