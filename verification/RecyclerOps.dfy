/**
  The tree operations of a write transaction as runs of its steps: copy-on-write, splits, new
  roots, moves, merges, collapsing roots and overflow pages.  Each is enabled all along and
  leaves no page detached that was not before, so that a transaction made of them can commit.
 */
module RecyclerOps {
  import opened Recycler
  import opened RecyclerTrees
  import opened RecyclerProofs

  // ---------------------------------------------------------------- several steps

  ghost predicate CanDoAll(w: Work, ops: seq<WorkStep>)
    decreases |ops|
  {
    ops == [] || (CanDo(w, ops[0]) && CanDoAll(Done(w, ops[0]), ops[1..]))
  }

  ghost function DoneAll(w: Work, ops: seq<WorkStep>): Work
    requires CanDoAll(w, ops)
    decreases |ops|
  {
    if ops == [] then w else DoneAll(Done(w, ops[0]), ops[1..])
  }

  /** Doing `ops` from `w` is possible and gives `w'`. */
  ghost predicate Leads(w: Work, ops: seq<WorkStep>, w': Work) {
    CanDoAll(w, ops) && DoneAll(w, ops) == w'
  }

  lemma LeadsOne(w: Work, op: WorkStep, w': Work)
    requires CanDo(w, op) && Done(w, op) == w'
    ensures Leads(w, [op], w')
  {
    hide CanDo, Done;
    assert CanDoAll(w', []) && DoneAll(w', []) == w';
    assert [op][1..] == [] && [op][0] == op;
  }

  lemma {:induction false} LeadsThen(w: Work, a: seq<WorkStep>, mid: Work, b: seq<WorkStep>, w': Work)
    requires Leads(w, a, mid) && Leads(mid, b, w')
    ensures Leads(w, a + b, w')
    decreases |a|
  {
    hide CanDo, Done;
    if a == [] {
      assert a + b == b;
    } else {
      assert (a + b)[1..] == a[1..] + b;
      LeadsThen(Done(w, a[0]), a[1..], mid, b, w');
    }
  }

  // ---------------------------------------------------------------- walks that survive

  /** A walk survives when every page it goes on from keeps the reference it follows. */
  lemma WalkSurvives(view: map<PgNo, Page>, tops: set<PgNo>, view': map<PgNo, Page>, tops': set<PgNo>, path: seq<PgNo>)
    requires Walk(view, tops, path) && path[0] in tops'
    requires forall i :: 0 <= i < |path| - 1 ==> path[i] in view' && path[i + 1] in view'[path[i]].refs
    ensures Walk(view', tops', path)
  {}

  /** The way to a page does not lead through a page it refers to. */
  lemma NotBelowChild(
      roots: set<PgNo>, detached: set<PgNo>, view: map<PgNo, Page>, path: seq<PgNo>, parent: PgNo, p: PgNo)
    requires OneReferrer(roots, detached, view) && WalkTo(view, roots + detached, path, parent)
    requires parent in view && p in view[parent].refs
    ensures p !in path
  {
    hide OneReferrer;
    if i :| 0 <= i < |path| && path[i] == p {
      WalkSnoc(view, roots + detached, path, parent, p);
      assert Walk(view, roots + detached, path[..i + 1]);
      WalkUnique(roots, detached, view, path[..i + 1], path + [p]);
      assert false;
    }
  }

  ghost predicate Distinct(xs: seq<PgNo>) {
    forall i, j :: 0 <= i < j < |xs| ==> xs[i] != xs[j]
  }

  function Members(xs: seq<PgNo>): (r: set<PgNo>)
    ensures forall x :: x in r <==> x in xs
  {
    set x | x in xs
  }

  /** `xs` lists the set `s`. */
  ghost predicate Lists(xs: seq<PgNo>, s: set<PgNo>) {
    Distinct(xs) && Members(xs) == s
  }

  // ---------------------------------------------------------------- single steps

  lemma ModifyLeads(w: Work, q: PgNo, body: seq<nat>)
    requires q in w.view && q in w.dirty
    ensures Leads(w, [Modify(q, body)], w.(view := w.view[q := Page(w.view[q].refs, body)]))
  {
    LeadsOne(w, Modify(q, body), Done(w, Modify(q, body)));
  }

  lemma LinkRootLeads(w: Work, c: PgNo)
    requires c in w.detached
    ensures Leads(w, [LinkRoot(c)], w.(roots := w.roots + {c}, detached := w.detached - {c}))
  {
    LeadsOne(w, LinkRoot(c), Done(w, LinkRoot(c)));
  }

  lemma UnlinkRootLeads(w: Work, c: PgNo)
    requires c in w.roots
    ensures Leads(w, [UnlinkRoot(c)], w.(roots := w.roots - {c}, detached := w.detached + {c}))
  {
    LeadsOne(w, UnlinkRoot(c), Done(w, UnlinkRoot(c)));
  }

  lemma UnlinkLeads(w: Work, p: PgNo, c: PgNo)
    requires p in w.view && p in w.dirty && c in w.view[p].refs
    ensures Leads(w, [Unlink(p, c)], w.(view := SetRefs(w.view, p, w.view[p].refs - {c}), detached := w.detached + {c}))
  {
    LeadsOne(w, Unlink(p, c), Done(w, Unlink(p, c)));
  }

  /** A detached page is freed, or becomes loose. */
  function DropStep(loosen: bool, p: PgNo): WorkStep {
    if loosen then Loosen(p) else Free(p)
  }

  function Dropped(w: Work, loosen: bool, p: PgNo): Work
    requires p in w.view
  {
    var w' := w.(view := w.view - {p}, detached := w.detached - {p} + w.view[p].refs);
    if loosen then w'.(loose := [p] + w.loose) else w'.(freePgs := w.freePgs + multiset{p})
  }

  lemma DropLeads(w: Work, loosen: bool, p: PgNo)
    requires p in w.view && p in w.detached && (loosen ==> p in w.dirty)
    ensures Leads(w, [DropStep(loosen, p)], Dropped(w, loosen, p))
  {
    LeadsOne(w, DropStep(loosen, p), Done(w, DropStep(loosen, p)));
  }

  // ---------------------------------------------------------------- linking, unlinking and moving several pages

  function Links(p: PgNo, kids: seq<PgNo>): seq<WorkStep> {
    if kids == [] then [] else [Link(p, kids[0])] + Links(p, kids[1..])
  }

  function Unlinks(p: PgNo, kids: seq<PgNo>): seq<WorkStep> {
    if kids == [] then [] else [Unlink(p, kids[0])] + Unlinks(p, kids[1..])
  }

  function Moves(from: PgNo, to: PgNo, kids: seq<PgNo>): seq<WorkStep> {
    if kids == [] then [] else [Unlink(from, kids[0]), Link(to, kids[0])] + Moves(from, to, kids[1..])
  }

  function Linked(w: Work, p: PgNo, kids: set<PgNo>): Work
    requires p in w.view
  {
    w.(view := SetRefs(w.view, p, w.view[p].refs + kids), detached := w.detached - kids)
  }

  function Unlinked(w: Work, p: PgNo, kids: set<PgNo>): Work
    requires p in w.view
  {
    w.(view := SetRefs(w.view, p, w.view[p].refs - kids), detached := w.detached + kids)
  }

  function Moved(w: Work, from: PgNo, to: PgNo, kids: set<PgNo>): Work
    requires from in w.view && to in w.view
  {
    var view := SetRefs(w.view, from, w.view[from].refs - kids);
    w.(view := SetRefs(view, to, view[to].refs + kids))
  }

  lemma LinkedTwice(w: Work, p: PgNo, c: PgNo, ks: set<PgNo>)
    requires p in w.view
    ensures Linked(Linked(w, p, {c}), p, ks) == Linked(w, p, {c} + ks)
  {
    assert w.view[p].refs + {c} + ks == w.view[p].refs + ({c} + ks);
    assert w.detached - {c} - ks == w.detached - ({c} + ks);
  }

  lemma LinkFirst(w: Work, p: PgNo, c: PgNo, ks: set<PgNo>, path: seq<PgNo>)
    requires p in w.view && p in w.dirty && c in w.detached && c !in ks
    requires WalkTo(w.view, w.roots + w.detached - ({c} + ks), path, p)
    ensures Leads(w, [Link(p, c)], Linked(w, p, {c}))
    ensures var w' := Linked(w, p, {c}); WalkTo(w'.view, w'.roots + w'.detached - ks, path, p)
  {
    var w' := Linked(w, p, {c});
    assert Reached(w.view, w.roots + w.detached - {c}, p) by {
      assert WalkTo(w.view, w.roots + w.detached - {c}, path, p);
    }
    WalkSurvives(w.view, w.roots + w.detached - ({c} + ks), w'.view, w'.roots + w'.detached - ks, path);
    hide Reached, Walk;
    LeadsOne(w, Link(p, c), w');
  }

  /** Detached pages are put below `p`, which is reached without them. */
  lemma {:induction false} LinksLead(w: Work, p: PgNo, kids: seq<PgNo>, path: seq<PgNo>)
    requires p in w.view && p in w.dirty && Distinct(kids) && Members(kids) <= w.detached
    requires WalkTo(w.view, w.roots + w.detached - Members(kids), path, p)
    ensures Leads(w, Links(p, kids), Linked(w, p, Members(kids)))
    decreases |kids|
  {
    hide WalkTo, Leads;
    if kids == [] {
      assert Members(kids) == {};
      NoneLinked(w, p);
    } else {
      var c, rest, mid := kids[0], kids[1..], Linked(w, p, {kids[0]});
      assert Members(kids) == {c} + Members(rest) && c !in Members(rest);
      LinkFirst(w, p, c, Members(rest), path);
      LinksLead(mid, p, rest, path);
      LinkedTwice(w, p, c, Members(rest));
      LeadsThen(w, [Link(p, c)], mid, Links(p, rest), Linked(w, p, Members(kids)));
    }
  }

  lemma NoneLinked(w: Work, p: PgNo)
    requires p in w.view
    ensures Leads(w, [], Linked(w, p, {})) && Leads(w, [], Unlinked(w, p, {}))
  {
    assert w.view[p].refs + {} == w.view[p].refs == w.view[p].refs - {};
    assert w.detached - {} == w.detached == w.detached + {};
    assert Linked(w, p, {}) == w == Unlinked(w, p, {});
  }

  lemma UnlinkedTwice(w: Work, p: PgNo, c: PgNo, ks: set<PgNo>)
    requires p in w.view
    ensures Unlinked(Unlinked(w, p, {c}), p, ks) == Unlinked(w, p, {c} + ks)
  {
    assert w.view[p].refs - {c} - ks == w.view[p].refs - ({c} + ks);
    assert w.detached + {c} + ks == w.detached + ({c} + ks);
  }

  lemma {:induction false} UnlinksLead(w: Work, p: PgNo, kids: seq<PgNo>)
    requires p in w.view && p in w.dirty && Distinct(kids) && Members(kids) <= w.view[p].refs
    ensures Leads(w, Unlinks(p, kids), Unlinked(w, p, Members(kids)))
    decreases |kids|
  {
    hide Leads;
    if kids == [] {
      assert Members(kids) == {};
      NoneLinked(w, p);
    } else {
      var c, rest, mid := kids[0], kids[1..], Unlinked(w, p, {kids[0]});
      assert Members(kids) == {c} + Members(rest) && c !in Members(rest);
      UnlinkLeads(w, p, c);
      UnlinksLead(mid, p, rest);
      UnlinkedTwice(w, p, c, Members(rest));
      LeadsThen(w, [Unlink(p, c)], mid, Unlinks(p, rest), Unlinked(w, p, Members(kids)));
    }
  }

  lemma MovedTwice(w: Work, from: PgNo, to: PgNo, c: PgNo, ks: set<PgNo>)
    requires from in w.view && to in w.view && from != to
    ensures Moved(Moved(w, from, to, {c}), from, to, ks) == Moved(w, from, to, {c} + ks)
  {
    assert w.view[from].refs - {c} - ks == w.view[from].refs - ({c} + ks);
    assert w.view[to].refs + {c} + ks == w.view[to].refs + ({c} + ks);
    assert Moved(Moved(w, from, to, {c}), from, to, ks).view == Moved(w, from, to, {c} + ks).view;
  }

  lemma MoveFirst(w: Work, from: PgNo, to: PgNo, c: PgNo, path: seq<PgNo>)
    requires from in w.view && to in w.view && from in w.dirty && to in w.dirty && from !in path
    requires c in w.view[from].refs && c !in w.roots && c !in w.detached
    requires WalkTo(w.view, w.roots + w.detached, path, to)
    ensures Leads(w, [Unlink(from, c), Link(to, c)], Moved(w, from, to, {c}))
    ensures var w' := Moved(w, from, to, {c}); WalkTo(w'.view, w'.roots + w'.detached, path, to)
  {
    var mid, w' := Unlinked(w, from, {c}), Moved(w, from, to, {c});
    UnlinkLeads(w, from, c);
    assert w.roots + mid.detached - ({c} + {}) == w.roots + w.detached;
    WalkSurvives(w.view, w.roots + w.detached, mid.view, w.roots + w.detached, path);
    LinkFirst(mid, to, c, {}, path);
    assert mid.detached - {c} == w.detached;
    assert Linked(mid, to, {c}) == w';
    assert w'.roots + w'.detached - {} == w'.roots + w'.detached;
    hide *;
    LeadsThen(w, [Unlink(from, c)], mid, [Link(to, c)], w');
    assert [Unlink(from, c)] + [Link(to, c)] == [Unlink(from, c), Link(to, c)];
  }

  /** Children of one page become children of another, which is not below it. */
  lemma {:induction false} MovesLead(w: Work, from: PgNo, to: PgNo, kids: seq<PgNo>, path: seq<PgNo>)
    requires from in w.view && to in w.view && from in w.dirty && to in w.dirty && from !in path && from != to
    requires Distinct(kids) && Members(kids) <= w.view[from].refs && Members(kids) !! w.roots + w.detached
    requires WalkTo(w.view, w.roots + w.detached, path, to)
    ensures Leads(w, Moves(from, to, kids), Moved(w, from, to, Members(kids)))
    decreases |kids|
  {
    hide WalkTo, Leads;
    if kids == [] {
      assert Members(kids) == {};
      NoneMoved(w, from, to);
    } else {
      var c, rest, mid := kids[0], kids[1..], Moved(w, from, to, {kids[0]});
      assert Members(kids) == {c} + Members(rest) && c !in Members(rest);
      MoveFirst(w, from, to, c, path);
      MovesLead(mid, from, to, rest, path);
      MovedTwice(w, from, to, c, Members(rest));
      LeadsThen(w, [Unlink(from, c), Link(to, c)], mid, Moves(from, to, rest), Moved(w, from, to, Members(kids)));
    }
  }

  lemma NoneMoved(w: Work, from: PgNo, to: PgNo)
    requires from in w.view && to in w.view
    ensures Leads(w, [], Moved(w, from, to, {}))
  {
    assert w.view[from].refs - {} == w.view[from].refs && w.view[to].refs + {} == w.view[to].refs;
    assert Moved(w, from, to, {}) == w;
  }

  // ---------------------------------------------------------------- allocation

  /** `op` allocates exactly the blank pages `pages`: they are dirty and not linked yet. */
  ghost predicate Takes(w: Work, op: WorkStep, pages: map<PgNo, Page>) {
    && CanDo(w, op) && Blank(pages) && pages.Keys !! w.view.Keys
    && var w' := Done(w, op);
    && w'.roots == w.roots && w'.view == w.view + pages && w'.detached == w.detached + pages.Keys
    && w'.freePgs == w.freePgs && w.dirty + pages.Keys <= w'.dirty
  }

  lemma AllocLooseTakes(w: Work, body: seq<nat>)
    requires Conserved(w) && w.loose != [] && w.loose[0] in w.dirty
    ensures Takes(w, AllocLoose(body), map[w.loose[0] := Page({}, body)])
  {
    hide Conserved;
    TakenIsNew(w, w.loose[0]);
    assert w.view + map[w.loose[0] := Page({}, body)] == w.view[w.loose[0] := Page({}, body)];
  }

  lemma AllocRunTakes(w: Work, op: WorkStep)
    requires Conserved(w) && CanDo(w, op) && (op.AllocHead? || op.AllocNew?)
    ensures Takes(w, op, op.pages)
  {
    hide Conserved, Run;
    forall p | p in op.pages ensures p !in w.view {
      assert p in multiset(op.pages.Keys);
      TakenIsNew(w, p);
    }
  }

  /** Every allocation of a transaction does so. */
  lemma AllocTakes(w: Work, op: WorkStep)
    requires Conserved(w) && CanDo(w, op) && forall p :: p in w.loose ==> p in w.dirty
    ensures op.AllocLoose? ==> Takes(w, op, map[w.loose[0] := Page({}, op.body)])
    ensures op.AllocHead? || op.AllocNew? ==> Takes(w, op, op.pages)
  {
    hide Conserved, Takes;
    if op.AllocLoose? {
      AllocLooseTakes(w, op.body);
    } else if op.AllocHead? || op.AllocNew? {
      AllocRunTakes(w, op);
    }
  }

  /** One page allocated and filled. */
  lemma TakesOne(w: Work, alloc: WorkStep, q: PgNo, blank: Page)
    requires Takes(w, alloc, map[q := blank])
    ensures CanDo(w, alloc) && q !in w.view && blank == Page({}, blank.body)
    ensures var w1 := Done(w, alloc);
      && Leads(w, [alloc], w1)
      && w1.roots == w.roots && w1.view == w.view[q := blank] && w1.detached == w.detached + {q}
      && w1.freePgs == w.freePgs && w.dirty + {q} <= w1.dirty
  {
    hide CanDo, Done;
    LeadsOne(w, alloc, Done(w, alloc));
    assert map[q := blank].Keys == {q} && q in map[q := blank].Keys;
    assert w.view + map[q := blank] == w.view[q := blank];
  }

  lemma FilledLeads(w: Work, alloc: WorkStep, q: PgNo, blank: Page, body: seq<nat>)
    requires Takes(w, alloc, map[q := blank])
    ensures CanDo(w, alloc)
    ensures var w1 := Done(w, alloc); Leads(w, [alloc] + [Modify(q, body)], w1.(view := w.view[q := Page({}, body)]))
  {
    hide Leads, Takes, CanDo, Done;
    TakesOne(w, alloc, q, blank);
    var w1 := Done(w, alloc);
    var w2 := w1.(view := w.view[q := Page({}, body)]);
    assert w1.view[q := Page({}, body)] == w.view[q := Page({}, body)];
    ModifyLeads(w1, q, body);
    LeadsThen(w, [alloc], w1, [Modify(q, body)], w2);
  }

  // ---------------------------------------------------------------- operations

  /** What `q` looks like after it has taken over the references of `p`, which is gone. */
  function Absorbed(view: map<PgNo, Page>, p: PgNo, q: PgNo): map<PgNo, Page>
    requires p in view && q in view && p != q
  {
    SetRefs(view - {p}, q, view[q].refs + view[p].refs)
  }

  /** A detached page is freed or loosened, and another one takes over its references. */
  lemma AbsorbLead(w: Work, loosen: bool, p: PgNo, q: PgNo, kids: seq<PgNo>, path: seq<PgNo>)
    requires p in w.view && p in w.detached && (loosen ==> p in w.dirty)
    requires OneReferrer(w.roots, w.detached, w.view)
    requires q in w.view && q in w.dirty && p != q && Lists(kids, w.view[p].refs)
    requires WalkTo(w.view, w.roots + w.detached, path, q) && p !in path
    ensures Leads(w, [DropStep(loosen, p)] + Links(q, kids),
      Dropped(w, loosen, p).(view := Absorbed(w.view, p, q), detached := w.detached - {p}))
  {
    hide Leads;
    var mid := Dropped(w, loosen, p);
    DropLeads(w, loosen, p);
    var tops := w.roots + mid.detached - Members(kids);
    assert path[0] in tops;
    WalkSurvives(w.view, w.roots + w.detached, mid.view, tops, path);
    LinksLead(mid, q, kids, path);
    var w' := Linked(mid, q, Members(kids));
    assert w'.detached == w.detached - {p};
    assert w' == mid.(view := Absorbed(w.view, p, q), detached := w.detached - {p});
    hide *;
    LeadsThen(w, [DropStep(loosen, p)], mid, Links(q, kids), w');
  }

  /** The walk to `parent`, which meets neither its child `p` nor pages outside the trees. */
  lemma WayTo(w: Work, parent: PgNo, p: PgNo) returns (path: seq<PgNo>)
    requires Forest(w.roots, w.detached, w.view) && parent in w.view && p in w.view[parent].refs
    ensures WalkTo(w.view, w.roots + w.detached, path, parent) && p !in path
    ensures forall x :: x in path ==> x in w.view
    ensures p in w.view && p !in w.roots && p !in w.detached && p != parent
  {
    assert Reached(w.view, w.roots + w.detached, parent);
    path :| WalkTo(w.view, w.roots + w.detached, path, parent);
    NotBelowChild(w.roots, w.detached, w.view, path, parent, p);
    assert parent in path;
  }

  function TouchOps(alloc: WorkStep, body: seq<nat>, parent: PgNo, p: PgNo, q: PgNo, kids: seq<PgNo>): seq<WorkStep> {
    [alloc] + [Modify(q, body)] + [Unlink(parent, p)] + ([Free(p)] + Links(q, kids)) + [Link(parent, q)]
  }

  /** The state in which the copy `q` exists and its original is cut off from `parent`. */
  ghost function CutOff(w: Work, alloc: WorkStep, body: seq<nat>, parent: PgNo, p: PgNo, q: PgNo): Work
    requires parent in w.view && CanDo(w, alloc)
  {
    Done(w, alloc).(view := SetRefs(w.view, parent, w.view[parent].refs - {p})[q := Page({}, body)],
                    detached := w.detached + {q} + {p})
  }

  lemma CutOffLeads(w: Work, alloc: WorkStep, body: seq<nat>, parent: PgNo, p: PgNo, q: PgNo, blank: Page)
    requires parent in w.view && parent in w.dirty && p in w.view[parent].refs
    requires Takes(w, alloc, map[q := blank])
    ensures Leads(w, [alloc] + [Modify(q, body)] + [Unlink(parent, p)], CutOff(w, alloc, body, parent, p, q))
  {
    hide Takes, Leads, CanDo, Done;
    TakesOne(w, alloc, q, blank);
    FilledLeads(w, alloc, q, blank, body);
    var w2, w3 := Done(w, alloc).(view := w.view[q := Page({}, body)]), CutOff(w, alloc, body, parent, p, q);
    assert SetRefs(w2.view, parent, w.view[parent].refs - {p}) == w3.view;
    UnlinkLeads(w2, parent, p);
    LeadsThen(w, [alloc] + [Modify(q, body)], w2, [Unlink(parent, p)], w3);
  }

  /** The trees with `q`, a copy of `p`, in its place below `parent`. */
  function Replaced(view: map<PgNo, Page>, parent: PgNo, p: PgNo, q: PgNo): map<PgNo, Page>
    requires parent in view && p in view
  {
    (view - {p})[q := view[p]][parent := Page(view[parent].refs - {p} + {q}, view[parent].body)]
  }

  lemma CutOffOnce(w: Work, alloc: WorkStep, body: seq<nat>, parent: PgNo, p: PgNo, q: PgNo)
    requires CanDo(w, alloc) && Done(w, alloc).roots == w.roots && OneReferrer(w.roots, w.detached, w.view)
    requires parent in w.view && p in w.view[parent].refs && q !in w.view
    ensures var cut := CutOff(w, alloc, body, parent, p, q); OneReferrer(cut.roots, cut.detached, cut.view)
  {
    hide CanDo, Done;
  }

  /** The original freed and its references taken over, `q` is linked below `parent`. */
  lemma RelinkLeads(w: Work, view: map<PgNo, Page>, parent: PgNo, p: PgNo, q: PgNo, path: seq<PgNo>)
    requires WalkTo(view, w.roots + w.detached - {q}, path, parent) && p !in path && q !in path
    requires parent in view && p in view && p != parent && parent != q && q !in view && parent in w.dirty &&
      q in w.detached
    requires w.view == SetRefs(view, parent, view[parent].refs - {p})[q := view[p]] - {p}
    ensures Leads(w, [Link(parent, q)], w.(view := Replaced(view, parent, p, q), detached := w.detached - {q}))
  {
    WalkSurvives(view, w.roots + w.detached - {q}, w.view, w.roots + w.detached - {q}, path);
    assert {q} + {} == {q};
    LinkFirst(w, parent, q, {}, path);
    assert Linked(w, parent, {q}).view == Replaced(view, parent, p, q);
  }

  /** The state in which the copy has taken over the references of the original, which is freed. */
  ghost function Copied(w: Work, alloc: WorkStep, parent: PgNo, p: PgNo, q: PgNo): Work
    requires parent in w.view && p in w.view && CanDo(w, alloc)
  {
    Done(w, alloc).(view := SetRefs(w.view, parent, w.view[parent].refs - {p})[q := w.view[p]] - {p},
                    detached := w.detached + {q}, freePgs := w.freePgs + multiset{p})
  }

  lemma CopiedLeads(w: Work, alloc: WorkStep, cut: Work, parent: PgNo, p: PgNo, q: PgNo, kids: seq<PgNo>)
    requires parent in w.view && p in w.view && p != parent && CanDo(w, alloc) && Done(w, alloc).freePgs == w.freePgs
    requires cut == CutOff(w, alloc, w.view[p].body, parent, p, q) && q in cut.dirty
    requires OneReferrer(cut.roots, cut.detached, cut.view) && Lists(kids, w.view[p].refs)
    requires q !in w.view && p !in w.detached
    ensures Leads(cut, [Free(p)] + Links(q, kids), Copied(w, alloc, parent, p, q))
  {
    hide Leads, OneReferrer, CanDo, Done;
    assert WalkTo(cut.view, cut.roots + cut.detached, [q], q);
    AbsorbLead(cut, false, p, q, kids, [q]);
    assert {} + w.view[p].refs == w.view[p].refs;
    assert Absorbed(cut.view, p, q) == Copied(w, alloc, parent, p, q).view;
    assert cut.detached - {p} == w.detached + {q};
  }

  ghost function Touched(w: Work, alloc: WorkStep, parent: PgNo, p: PgNo, q: PgNo): Work
    requires parent in w.view && p in w.view && CanDo(w, alloc)
  {
    Done(w, alloc).(view := Replaced(w.view, parent, p, q), detached := w.detached, freePgs := w.freePgs + multiset{p})
  }

  lemma TouchedLeads(w: Work, alloc: WorkStep, parent: PgNo, p: PgNo, q: PgNo, path: seq<PgNo>)
    requires parent in w.view && p in w.view && p != parent && q !in w.view && q !in w.detached && q !in w.roots
    requires CanDo(w, alloc) && parent in Done(w, alloc).dirty && Done(w, alloc).roots == w.roots
    requires WalkTo(w.view, w.roots + w.detached, path, parent) && p !in path && q !in path
    ensures Leads(Copied(w, alloc, parent, p, q), [Link(parent, q)], Touched(w, alloc, parent, p, q))
  {
    hide Leads, CanDo;
    var copied := Copied(w, alloc, parent, p, q);
    assert copied.roots + copied.detached - {q} == w.roots + w.detached;
    assert copied.detached - {q} == w.detached;
    RelinkLeads(copied, w.view, parent, p, q, path);
  }

  /** mdb_page_touch below a parent: the copy takes the place of the page, which is freed. */
  lemma TouchLeads(w: Work, alloc: WorkStep, parent: PgNo, p: PgNo, q: PgNo, blank: Page, kids: seq<PgNo>)
    requires parent in w.view && p in w.view && parent in w.dirty
    requires p in w.view[parent].refs && Lists(kids, w.view[p].refs)
    requires Takes(w, alloc, map[q := blank]) && Forest(w.roots, w.detached, w.view)
    ensures Leads(w, TouchOps(alloc, w.view[p].body, parent, p, q, kids), Touched(w, alloc, parent, p, q))
  {
    hide Leads, CanDo, Done, Walk, AllReached;
    var path := WayTo(w, parent, p);
    var cut, body := CutOff(w, alloc, w.view[p].body, parent, p, q), w.view[p].body;
    assert q in map[q := blank].Keys;
    assert q !in w.view && q !in w.detached && q !in w.roots;
    CutOffLeads(w, alloc, body, parent, p, q, blank);
    CutOffOnce(w, alloc, body, parent, p, q);
    hide OneReferrer;
    CopiedLeads(w, alloc, cut, parent, p, q, kids);
    TouchedLeads(w, alloc, parent, p, q, path);
    var a, b := [alloc] + [Modify(q, body)] + [Unlink(parent, p)], [Free(p)] + Links(q, kids);
    LeadsThen(w, a, cut, b, Copied(w, alloc, parent, p, q));
    LeadsThen(w, a + b, Copied(w, alloc, parent, p, q), [Link(parent, q)], Touched(w, alloc, parent, p, q));
  }

  function TouchRootOps(alloc: WorkStep, body: seq<nat>, p: PgNo, q: PgNo, kids: seq<PgNo>): seq<WorkStep> {
    [alloc] + [Modify(q, body)] + [UnlinkRoot(p)] + ([Free(p)] + Links(q, kids)) + [LinkRoot(q)]
  }

  /** The state in which the copy `q` exists and `p` is no root any more. */
  ghost function Uprooted(w: Work, alloc: WorkStep, body: seq<nat>, p: PgNo, q: PgNo): Work
    requires CanDo(w, alloc)
  {
    Done(w, alloc).(roots := w.roots - {p}, view := w.view[q := Page({}, body)], detached := w.detached + {q} + {p})
  }

  lemma UprootedLeads(w: Work, alloc: WorkStep, body: seq<nat>, p: PgNo, q: PgNo, blank: Page)
    requires p in w.roots && Takes(w, alloc, map[q := blank])
    ensures Leads(w, [alloc] + [Modify(q, body)] + [UnlinkRoot(p)], Uprooted(w, alloc, body, p, q))
  {
    hide Takes, Leads, CanDo, Done;
    TakesOne(w, alloc, q, blank);
    FilledLeads(w, alloc, q, blank, body);
    var w2, w3 := Done(w, alloc).(view := w.view[q := Page({}, body)]), Uprooted(w, alloc, body, p, q);
    UnlinkRootLeads(w2, p);
    LeadsThen(w, [alloc] + [Modify(q, body)], w2, [UnlinkRoot(p)], w3);
  }

  lemma UprootedOnce(w: Work, alloc: WorkStep, body: seq<nat>, p: PgNo, q: PgNo)
    requires CanDo(w, alloc) && OneReferrer(w.roots, w.detached, w.view) && p in w.roots && q !in w.view
    ensures var cut := Uprooted(w, alloc, body, p, q); OneReferrer(cut.roots, cut.detached, cut.view)
  {
    hide CanDo, Done;
  }

  ghost function RootTouched(w: Work, alloc: WorkStep, p: PgNo, q: PgNo): Work
    requires p in w.view && CanDo(w, alloc)
  {
    Done(w, alloc).(roots := w.roots - {p} + {q}, view := (w.view - {p})[q := w.view[p]], detached := w.detached,
                    freePgs := w.freePgs + multiset{p})
  }

  lemma RootTouchedLeads(w: Work, alloc: WorkStep, cut: Work, p: PgNo, q: PgNo, kids: seq<PgNo>)
    requires CanDo(w, alloc) && Done(w, alloc).freePgs == w.freePgs && p in w.view && p !in w.detached
    requires cut == Uprooted(w, alloc, w.view[p].body, p, q) && q in cut.dirty && q !in w.view && q !in w.detached
    requires OneReferrer(cut.roots, cut.detached, cut.view) && Lists(kids, w.view[p].refs)
    ensures Leads(cut, ([Free(p)] + Links(q, kids)) + [LinkRoot(q)], RootTouched(w, alloc, p, q))
  {
    hide OneReferrer, Leads, CanDo, Done;
    assert WalkTo(cut.view, cut.roots + cut.detached, [q], q);
    AbsorbLead(cut, false, p, q, kids, [q]);
    var w' := RootTouched(w, alloc, p, q);
    var copied := w'.(roots := w.roots - {p}, detached := w.detached + {q});
    assert {} + w.view[p].refs == w.view[p].refs;
    assert Absorbed(cut.view, p, q) == w'.view;
    assert cut.detached - {p} == w.detached + {q};
    assert w.detached + {q} - {q} == w.detached;
    LinkRootLeads(copied, q);
    LeadsThen(cut, [Free(p)] + Links(q, kids), copied, [LinkRoot(q)], w');
  }

  /** mdb_page_touch of a root: the copy becomes the root. */
  lemma TouchRootLeads(w: Work, alloc: WorkStep, p: PgNo, q: PgNo, blank: Page, kids: seq<PgNo>)
    requires p in w.roots && p in w.view && Lists(kids, w.view[p].refs)
    requires Takes(w, alloc, map[q := blank]) && Forest(w.roots, w.detached, w.view)
    ensures Leads(w, TouchRootOps(alloc, w.view[p].body, p, q, kids), RootTouched(w, alloc, p, q))
  {
    hide Leads, CanDo, Done, AllReached;
    var cut, body := Uprooted(w, alloc, w.view[p].body, p, q), w.view[p].body;
    assert q in map[q := blank].Keys;
    assert q !in w.view && q !in w.detached && p !in w.detached;
    UprootedLeads(w, alloc, body, p, q, blank);
    UprootedOnce(w, alloc, body, p, q);
    hide OneReferrer;
    RootTouchedLeads(w, alloc, cut, p, q, kids);
    var a, b := [alloc] + [Modify(q, body)] + [UnlinkRoot(p)], [Free(p)] + Links(q, kids);
    LeadsThen(w, a, cut, b + [LinkRoot(q)], RootTouched(w, alloc, p, q));
    assert a + b + [LinkRoot(q)] == a + (b + [LinkRoot(q)]);
  }

  /** The trees after `q`, new below `parent`, took over the children `kids` of `p`. */
  function SplitView(
      view: map<PgNo, Page>, parent: PgNo, p: PgNo, q: PgNo, kids: set<PgNo>, body: seq<nat>): map<PgNo, Page>
    requires parent in view && p in view && parent != p
  {
    view[p := Page(view[p].refs - kids, view[p].body)]
        [q := Page(kids, body)]
        [parent := Page(view[parent].refs + {q}, view[parent].body)]
  }

  lemma SplitMoves(w: Work, w1: Work, p: PgNo, q: PgNo, kids: seq<PgNo>, body: seq<nat>)
    requires p in w.view && p in w.dirty && q !in w.view && w.dirty + {q} <= w1.dirty
    requires w1.roots == w.roots && w1.view == w.view[q := Page({}, body)] && w1.detached == w.detached + {q}
    requires Distinct(kids) && Members(kids) <= w.view[p].refs && OneReferrer(w.roots, w.detached, w.view)
    ensures Leads(w1, Moves(p, q, kids),
      w1.(view := w1.view[p := Page(w.view[p].refs - Members(kids), w.view[p].body)][q := Page(Members(kids), body)]))
  {
    hide Leads;
    assert WalkTo(w1.view, w1.roots + w1.detached, [q], q);
    assert Members(kids) !! w1.roots + w1.detached;
    hide OneReferrer;
    MovesLead(w1, p, q, kids, [q]);
    assert {} + Members(kids) == Members(kids);
  }

  /** mdb_page_split below a parent: some children of `p` move to a new right sibling. */
  lemma SplitLeads(w: Work, alloc: WorkStep, parent: PgNo, p: PgNo, q: PgNo, blank: Page, kids: seq<PgNo>)
    requires parent in w.view && p in w.view && parent in w.dirty && p in w.dirty && parent != p
    requires p in w.view[parent].refs && Distinct(kids) && Members(kids) <= w.view[p].refs
    requires Takes(w, alloc, map[q := blank]) && Forest(w.roots, w.detached, w.view)
    ensures Leads(w, [alloc] + Moves(p, q, kids) + [Link(parent, q)],
      Done(w, alloc).(view := SplitView(w.view, parent, p, q, Members(kids), blank.body), detached := w.detached))
  {
    hide Leads, CanDo, Done, AllReached, Walk;
    var w1, ks := Done(w, alloc), Members(kids);
    TakesOne(w, alloc, q, blank);
    hide Takes;
    var path := WayTo(w, parent, p);
    SplitMoves(w, w1, p, q, kids, blank.body);
    assert q !in w.detached && q !in w.roots;
    hide OneReferrer;
    var w2 := w1.(view := w1.view[p := Page(w.view[p].refs - ks, w.view[p].body)][q := Page(ks, blank.body)]);
    SplitLink(w, w2, parent, p, q, path);
    var w' := w1.(view := SplitView(w.view, parent, p, q, ks, blank.body), detached := w.detached);
    assert w2.view[parent := Page(w.view[parent].refs + {q}, w.view[parent].body)] == w'.view;
    LeadsThen(w, [alloc], w1, Moves(p, q, kids), w2);
    LeadsThen(w, [alloc] + Moves(p, q, kids), w2, [Link(parent, q)], w');
  }

  lemma SplitLink(w: Work, w2: Work, parent: PgNo, p: PgNo, q: PgNo, path: seq<PgNo>)
    requires parent in w.view && parent in w2.dirty && WalkTo(w.view, w.roots + w.detached, path, parent) && p !in path
    requires q !in w.view && q !in w.detached && q !in w.roots && parent != p
    requires w2.roots == w.roots && w2.detached == w.detached + {q} && w.view.Keys <= w2.view.Keys
    requires forall x :: x in w.view && x != p ==> w2.view[x] == w.view[x]
    ensures Leads(w2, [Link(parent, q)],
      w2.(view := w2.view[parent := Page(w.view[parent].refs + {q}, w.view[parent].body)], detached := w.detached))
  {
    hide Leads;
    assert {q} + {} == {q};
    assert w2.roots + w2.detached - {q} == w.roots + w.detached;
    assert w2.detached - {q} == w.detached;
    WalkSurvives(w.view, w.roots + w.detached, w2.view, w.roots + w.detached, path);
    LinkFirst(w2, parent, q, {}, path);
  }

  lemma RaisedLeads(w: Work, w1: Work, p: PgNo, r: PgNo, body: seq<nat>)
    requires p in w.roots && p in w.view && p !in w.detached && r !in w.detached && r !in w.view && r in w1.dirty
    requires w1.roots == w.roots && w1.view == w.view[r := Page({}, body)] && w1.detached == w.detached + {r}
    ensures Leads(w1, [UnlinkRoot(p)] + [Link(r, p)],
      w1.(roots := w.roots - {p}, view := w.view[r := Page({p}, body)]))
  {
    hide Leads, CanDo, Done;
    var w2 := w1.(roots := w.roots - {p}, detached := w.detached + {r} + {p});
    UnlinkRootLeads(w1, p);
    var w3 := w1.(roots := w.roots - {p}, view := w.view[r := Page({p}, body)]);
    assert {} + {p} == {p} && w.detached + {r} + {p} - {p} == w.detached + {r};
    assert w2.view[r := Page({p}, body)] == w3.view;
    assert Linked(w2, r, {p}) == w3;
    assert WalkTo(w2.view, w2.roots + w2.detached - ({p} + {}), [r], r);
    LinkFirst(w2, r, p, {}, [r]);
    LeadsThen(w1, [UnlinkRoot(p)], w2, [Link(r, p)], w3);
  }

  /** mdb_page_split of a root: a new root above it. */
  lemma NewRootLeads(w: Work, alloc: WorkStep, p: PgNo, r: PgNo, blank: Page)
    requires p in w.roots && p in w.view && Takes(w, alloc, map[r := blank]) && Forest(w.roots, w.detached, w.view)
    ensures Leads(w, [alloc] + ([UnlinkRoot(p)] + [Link(r, p)]) + [LinkRoot(r)],
      Done(w, alloc).(roots := w.roots - {p} + {r}, view := w.view[r := Page({p}, blank.body)], detached := w.detached))
  {
    hide Leads, Takes, AllReached, CanDo, Done;
    TakesOne(w, alloc, r, blank);
    assert p !in w.detached && r !in w.detached;
    hide OneReferrer;
    var w1 := Done(w, alloc);
    RaisedLeads(w, w1, p, r, blank.body);
    var w3 := w1.(roots := w.roots - {p}, view := w.view[r := Page({p}, blank.body)]);
    var w4 := w3.(roots := w.roots - {p} + {r}, detached := w.detached);
    assert w.detached + {r} - {r} == w.detached;
    LinkRootLeads(w3, r);
    LeadsThen(w, [alloc], w1, [UnlinkRoot(p)] + [Link(r, p)], w3);
    LeadsThen(w, [alloc] + ([UnlinkRoot(p)] + [Link(r, p)]), w3, [LinkRoot(r)], w4);
  }

  /** A put into an empty tree: a new page becomes a root. */
  lemma FirstRootLeads(w: Work, alloc: WorkStep, r: PgNo, blank: Page)
    requires Takes(w, alloc, map[r := blank]) && Forest(w.roots, w.detached, w.view)
    ensures Leads(w, [alloc] + [LinkRoot(r)],
      Done(w, alloc).(roots := w.roots + {r}, view := w.view[r := blank], detached := w.detached))
  {
    hide Leads, Takes, AllReached, CanDo, Done;
    TakesOne(w, alloc, r, blank);
    assert w.detached + {r} - {r} == w.detached;
    LinkRootLeads(Done(w, alloc), r);
    LeadsThen(w, [alloc], Done(w, alloc), [LinkRoot(r)],
      Done(w, alloc).(roots := w.roots + {r}, view := w.view[r := blank], detached := w.detached));
  }

  /** mdb_rebalance of an empty root: the tree is gone. */
  lemma EmptyRootLeads(w: Work, p: PgNo)
    requires p in w.roots && p in w.view && w.view[p].refs == {} && Forest(w.roots, w.detached, w.view)
    ensures Leads(w, [UnlinkRoot(p)] + [Free(p)],
      w.(roots := w.roots - {p}, view := w.view - {p}, freePgs := w.freePgs + multiset{p}))
  {
    hide Leads, AllReached, CanDo, Done;
    assert p !in w.detached;
    hide OneReferrer;
    var w1 := w.(roots := w.roots - {p}, detached := w.detached + {p});
    UnlinkRootLeads(w, p);
    var w2 := w1.(view := w.view - {p}, freePgs := w.freePgs + multiset{p}, detached := w.detached);
    assert w.detached + {p} - {p} + {} == w.detached;
    DropLeads(w1, false, p);
    LeadsThen(w, [UnlinkRoot(p)], w1, [Free(p)], w2);
  }

  /** mdb_rebalance of a root with one child: the child becomes the root. */
  lemma CollapseLeads(w: Work, p: PgNo, c: PgNo)
    requires p in w.roots && p in w.view && w.view[p].refs == {c} && Forest(w.roots, w.detached, w.view)
    ensures Leads(w, [UnlinkRoot(p)] + [Free(p)] + [LinkRoot(c)],
      w.(roots := w.roots - {p} + {c}, view := w.view - {p}, freePgs := w.freePgs + multiset{p}))
  {
    hide Leads, AllReached, CanDo, Done;
    assert c !in w.detached && p !in w.detached;
    hide OneReferrer;
    var w1 := w.(roots := w.roots - {p}, detached := w.detached + {p});
    UnlinkRootLeads(w, p);
    var w2 := w1.(view := w.view - {p}, freePgs := w.freePgs + multiset{p}, detached := w.detached + {c});
    assert w.detached + {p} - {p} + {c} == w.detached + {c};
    DropLeads(w1, false, p);
    var w3 := w2.(roots := w.roots - {p} + {c}, detached := w.detached);
    assert w.detached + {c} - {c} == w.detached;
    LinkRootLeads(w2, c);
    hide *;
    LeadsThen(w, [UnlinkRoot(p)], w1, [Free(p)], w2);
    LeadsThen(w, [UnlinkRoot(p)] + [Free(p)], w2, [LinkRoot(c)], w3);
  }

  /** The trees after `dst` took over the children of its sibling `src`, which is gone. */
  function MergedView(view: map<PgNo, Page>, parent: PgNo, src: PgNo, dst: PgNo): map<PgNo, Page>
    requires parent in view && src in view && dst in view && src != dst
  {
    Absorbed(SetRefs(view, parent, view[parent].refs - {src}), src, dst)
  }

  /** The state after a merge; a dirty source page becomes loose, a clean one is freed. */
  function Merged(w: Work, loosen: bool, parent: PgNo, src: PgNo, dst: PgNo): Work
    requires parent in w.view && src in w.view && dst in w.view && src != dst
  {
    var w' := w.(view := MergedView(w.view, parent, src, dst));
    if loosen then w'.(loose := [src] + w.loose) else w'.(freePgs := w.freePgs + multiset{src})
  }

  lemma MergedAbsorbs(
      w: Work, mid: Work, loosen: bool, parent: PgNo, src: PgNo, dst: PgNo, kids: seq<PgNo>, path: seq<PgNo>)
    requires parent in w.view && src in w.view && dst in w.view && src != dst && src !in w.detached
    requires mid == Unlinked(w, parent, {src}) && OneReferrer(mid.roots, mid.detached, mid.view) &&
      mid.view[src] == w.view[src]
    requires (loosen ==> src in w.dirty) && dst in w.dirty && Lists(kids, w.view[src].refs)
    requires WalkTo(mid.view, mid.roots + mid.detached, path, dst) && src !in path
    ensures Leads(mid, [DropStep(loosen, src)] + Links(dst, kids), Merged(w, loosen, parent, src, dst))
  {
    hide Leads, OneReferrer, Walk;
    AbsorbLead(mid, loosen, src, dst, kids, path);
    assert mid.detached - {src} == w.detached;
    assert Dropped(mid, loosen, src).(view := Absorbed(mid.view, src, dst), detached := w.detached) ==
        Merged(w, loosen, parent, src, dst);
  }

  /** mdb_page_merge: the source page leaves its parent, and its sibling takes over its children. */
  lemma MergeLeads(w: Work, loosen: bool, parent: PgNo, src: PgNo, dst: PgNo, kids: seq<PgNo>)
    requires parent in w.view && src in w.view && dst in w.view && src != dst && parent in w.dirty && dst in w.dirty
    requires src in w.view[parent].refs && dst in w.view[parent].refs && Lists(kids, w.view[src].refs)
    requires (loosen ==> src in w.dirty) && Forest(w.roots, w.detached, w.view)
    ensures Leads(w, [Unlink(parent, src)] + ([DropStep(loosen, src)] + Links(dst, kids)),
      Merged(w, loosen, parent, src, dst))
  {
    hide Leads, AllReached;
    var path := WayTo(w, parent, src);
    var mid := Unlinked(w, parent, {src});
    UnlinkLeads(w, parent, src);
    UnlinkedOnce(w.roots, w.detached, w.view, parent, src);
    hide OneReferrer;
    WalkSurvives(w.view, w.roots + w.detached, mid.view, mid.roots + mid.detached, path);
    WalkSnoc(mid.view, mid.roots + mid.detached, path, parent, dst);
    hide Walk;
    MergedAbsorbs(w, mid, loosen, parent, src, dst, kids, path + [dst]);
    LeadsThen(w, [Unlink(parent, src)], mid, [DropStep(loosen, src)] + Links(dst, kids),
      Merged(w, loosen, parent, src, dst));
  }

  /** mdb_node_move between siblings: one child changes its parent. */
  lemma NodeMoveLeads(w: Work, parent: PgNo, from: PgNo, to: PgNo, c: PgNo)
    requires parent in w.view && from in w.view && to in w.view && from != to && from in w.dirty && to in w.dirty
    requires from in w.view[parent].refs && to in w.view[parent].refs && c in w.view[from].refs
    requires Forest(w.roots, w.detached, w.view)
    ensures Leads(w, [Unlink(from, c), Link(to, c)], Moved(w, from, to, {c}))
  {
    hide Leads, AllReached;
    var path := WayTo(w, parent, from);
    WalkSnoc(w.view, w.roots + w.detached, path, parent, to);
    assert c !in w.roots && c !in w.detached;
    MoveFirst(w, from, to, c, path + [to]);
  }

  lemma OverflowLinks(w: Work, w1: Work, p: PgNo, pages: map<PgNo, Page>, run: seq<PgNo>)
    requires p in w.view && p in w1.dirty && Lists(run, pages.Keys) && pages.Keys !! w.view.Keys
    requires w1.roots == w.roots && w1.view == w.view + pages && w1.detached == w.detached + pages.Keys
    requires Reached(w.view, w.roots + w.detached, p) && w.roots + w.detached <= w.view.Keys
    ensures Leads(w1, Links(p, run),
      w1.(view := SetRefs(w.view + pages, p, w.view[p].refs + pages.Keys), detached := w.detached))
  {
    hide Leads;
    var path :| WalkTo(w.view, w.roots + w.detached, path, p);
    assert w1.detached - pages.Keys == w.detached && w1.roots + w1.detached - pages.Keys == w.roots + w.detached;
    assert w1.view[p] == w.view[p];
    WalkSurvives(w.view, w.roots + w.detached, w1.view, w.roots + w.detached, path);
    LinksLead(w1, p, run, path);
  }

  /** A value too large for its node: new overflow pages below leaf `p`. */
  lemma OverflowLeads(w: Work, alloc: WorkStep, p: PgNo, pages: map<PgNo, Page>, run: seq<PgNo>)
    requires p in w.view && p in w.dirty && Lists(run, pages.Keys)
    requires Takes(w, alloc, pages) && Forest(w.roots, w.detached, w.view)
    ensures Leads(w, [alloc] + Links(p, run),
      Done(w, alloc).(view := SetRefs(w.view + pages, p, w.view[p].refs + pages.Keys), detached := w.detached))
  {
    hide Leads, CanDo, Done, Reached, Lists;
    LeadsOne(w, alloc, Done(w, alloc));
    OverflowLinks(w, Done(w, alloc), p, pages, run);
    LeadsThen(w, [alloc], Done(w, alloc), Links(p, run),
      Done(w, alloc).(view := SetRefs(w.view + pages, p, w.view[p].refs + pages.Keys), detached := w.detached));
  }

  lemma RefsNotDetached(w: Work, p: PgNo, refs: set<PgNo>)
    requires Forest(w.roots, w.detached, w.view) && p in w.view && refs <= w.view[p].refs
    ensures refs !! w.detached
  {}

  /** What mdb_ovpage_free makes of `w` for pages this transaction wrote. */
  function RunReturned(w: Work, p: PgNo, run: set<PgNo>): Work
    requires p in w.view && p !in run
  {
    w.(view := SetRefs(w.view - run, p, w.view[p].refs - run), pghead := w.pghead + multiset(run),
       dirty := w.dirty - run, spilled := w.spilled - run)
  }

  lemma FreeRunLeads(w: Work, start: PgNo, num: nat, run: set<PgNo>)
    requires w.hasHead && run == Run(start, num) && run <= w.detached && run <= w.view.Keys &&
      run <= w.dirty + w.spilled
    requires forall p :: p in run ==> w.view[p].refs == {}
    ensures Leads(w, [FreeRun(start, num)],
      w.(view := w.view - run, detached := w.detached - run, pghead := w.pghead + multiset(run),
         dirty := w.dirty - run, spilled := w.spilled - run))
  {
    hide Run;
    LeadsOne(w, FreeRun(start, num), Done(w, FreeRun(start, num)));
  }

  /** mdb_ovpage_free of pages this transaction wrote: the run goes back to the reclaimed pages. */
  lemma OverflowFreedLeads(w: Work, p: PgNo, start: PgNo, num: nat, run: seq<PgNo>)
    requires p in w.view && p in w.dirty && p !in Run(start, num) && Lists(run, Run(start, num)) && w.hasHead
    requires Run(start, num) <= w.view[p].refs && Run(start, num) <= w.dirty + w.spilled
    requires Run(start, num) <= w.view.Keys && forall x :: x in Run(start, num) ==> w.view[x].refs == {}
    requires Forest(w.roots, w.detached, w.view)
    ensures Leads(w, Unlinks(p, run) + [FreeRun(start, num)], RunReturned(w, p, Run(start, num)))
  {
    hide Leads, Forest, Run, CanDo, Done, Distinct;
    var rs := Run(start, num);
    RefsNotDetached(w, p, rs);
    UnlinksLead(w, p, run);
    var mid := Unlinked(w, p, rs);
    assert mid.detached - rs == w.detached;
    assert mid.view - rs == SetRefs(w.view - rs, p, w.view[p].refs - rs);
    FreeRunLeads(mid, start, num, rs);
    LeadsThen(w, Unlinks(p, run), mid, [FreeRun(start, num)], RunReturned(w, p, rs));
  }

  function Frees(kids: seq<PgNo>): seq<WorkStep> {
    if kids == [] then [] else [Free(kids[0])] + Frees(kids[1..])
  }

  /** Detached pages without references are freed. */
  lemma {:induction false} FreesLead(w: Work, kids: seq<PgNo>)
    requires Distinct(kids) && forall x :: x in kids ==> x in w.view && x in w.detached && w.view[x].refs == {}
    ensures Leads(w, Frees(kids), w.(view := w.view - Members(kids), detached := w.detached - Members(kids),
                                     freePgs := w.freePgs + multiset(Members(kids))))
    decreases |kids|
  {
    hide Leads;
    if kids == [] {
      assert Members(kids) == {} && w.view - {} == w.view && w.detached - {} == w.detached;
      assert w.freePgs + multiset(Members(kids)) == w.freePgs;
      NothingDone(w);
    } else {
      var c, rest := kids[0], kids[1..];
      var mid := w.(view := w.view - {c}, detached := w.detached - {c}, freePgs := w.freePgs + multiset{c});
      var ks, rs := Members(kids), Members(rest);
      assert ks == {c} + rs && c !in rs;
      assert w.detached - {c} + {} == w.detached - {c};
      DropLeads(w, false, c);
      FreesLead(mid, rest);
      assert w.view - {c} - rs == w.view - ks && w.detached - {c} - rs == w.detached - ks;
      assert multiset{c} + multiset(rs) == multiset(ks);
      assert w.freePgs + multiset{c} + multiset(rs) == w.freePgs + multiset(ks);
      LeadsThen(w, [Free(c)], mid, Frees(rest),
        w.(view := w.view - ks, detached := w.detached - ks, freePgs := w.freePgs + multiset(ks)));
    }
  }

  lemma NothingDone(w: Work)
    ensures Leads(w, [], w)
  {}

  /** mdb_ovpage_free of pages of an earlier transaction: they are freed. */
  lemma OldOverflowFreedLeads(w: Work, p: PgNo, run: seq<PgNo>)
    requires p in w.view && p in w.dirty && Distinct(run) && Members(run) <= w.view[p].refs && p !in run
    requires forall x :: x in run ==> x in w.view && w.view[x].refs == {}
    requires Forest(w.roots, w.detached, w.view)
    ensures Leads(w, Unlinks(p, run) + Frees(run),
      w.(view := SetRefs(w.view - Members(run), p, w.view[p].refs - Members(run)),
         freePgs := w.freePgs + multiset(Members(run))))
  {
    hide Leads, Forest;
    var rs := Members(run);
    RefsNotDetached(w, p, rs);
    UnlinksLead(w, p, run);
    var mid := Unlinked(w, p, rs);
    assert mid.detached - rs == w.detached;
    assert mid.view - rs == SetRefs(w.view - rs, p, w.view[p].refs - rs);
    FreesLead(mid, run);
    LeadsThen(w, Unlinks(p, run), mid, Frees(run),
      mid.(view := mid.view - rs, detached := mid.detached - rs, freePgs := w.freePgs + multiset(rs)));
  }

  // ---------------------------------------------------------------- what operations keep

  /** Whatever runs of steps a transaction does, its pages stay trees and every page keeps one owner. */
  lemma {:induction false} OpsKeep(live: set<Meta>, w: Work, ops: seq<WorkStep>, w': Work)
    requires WorkInv(live, w) && Forest(w.roots, w.detached, w.view) && Leads(w, ops, w')
    ensures WorkInv(live, w') && Forest(w'.roots, w'.detached, w'.view)
    decreases |ops|
  {
    hide CanDo, Done, Forest, Conserved, Keeps;
    if ops != [] {
      WorkStepKeeps(live, w, ops[0]);
      WorkStepForest(w, ops[0]);
      OpsKeep(live, Done(w, ops[0]), ops[1..], w');
    }
  }
}
